/** The feeder sidecar's price cache and submit loop, and how its windows line up with the chain's. */
module FeederLoop {
  import opened Dec
  import opened Results
  import opened OracleKeys

  // ----- the cache

  datatype Entry = Entry(price: Dec, at: int, healthy: bool)

  type Quotes = map<Pair, Entry>

  function Stored(m: Quotes, pair: Pair, price: Dec, t: int): Quotes {
    m[pair := Entry(price, t, true)]
  }

  /** Marking a pair that was never stored leaves an empty, unhealthy entry. */
  function Marked(m: Quotes, pair: Pair): Quotes {
    m[pair := (if pair in m then m[pair] else Entry(0, 0, false)).(healthy := false)]
  }

  function FreshIn(m: Quotes, pair: Pair, maxAge: int, now: int): Option<Dec> {
    if pair in m && m[pair].healthy && now - m[pair].at <= maxAge then Some(m[pair].price) else None
  }

  class Cache {
    var m: Quotes

    constructor ()
      ensures m == map[]
    {
      m := map[];
    }

    method Set(pair: Pair, price: Dec, t: int)
      modifies this
      ensures m == Stored(old(m), pair, price, t)
    {
      m := m[pair := Entry(price, t, true)];
    }

    method MarkUnhealthy(pair: Pair)
      modifies this
      ensures m == Marked(old(m), pair)
    {
      var e := if pair in m then m[pair] else Entry(0, 0, false);
      e := e.(healthy := false);
      m := m[pair := e];
    }

    method Fresh(pair: Pair, maxAge: int, now: int) returns (price: Option<Dec>)
      ensures price == FreshIn(m, pair, maxAge, now)
    {
      if pair !in m || !m[pair].healthy {
        return None;
      }
      if now - m[pair].at > maxAge {
        return None;
      }
      return Some(m[pair].price);
    }
  }

  /** What the price loop does to the cache. */
  datatype Update = Put(pair: Pair, price: Dec, t: int) | Mark(pair: Pair)

  function After(us: seq<Update>): Quotes {
    if us == [] then map[]
    else
      var before := After(us[..|us| - 1]);
      match us[|us| - 1]
      case Put(pair, price, t) => Stored(before, pair, price, t)
      case Mark(pair) => Marked(before, pair)
  }

  ghost predicate LastFor(us: seq<Update>, i: int, pair: Pair) {
    0 <= i < |us| && us[i].pair == pair && forall j :: i < j < |us| ==> us[j].pair != pair
  }

  /** A pair is fresh exactly when the last thing that happened to it was a price, and that price is young enough. */
  lemma {:induction false} FreshExactly(us: seq<Update>, pair: Pair, maxAge: int, now: int, price: Dec)
    ensures FreshIn(After(us), pair, maxAge, now) == Some(price) <==>
            exists i :: LastFor(us, i, pair) && us[i].Put? && us[i].price == price && now - us[i].t <= maxAge
  {
    if us != [] {
      var n := |us| - 1;
      FreshExactly(us[..n], pair, maxAge, now, price);
      if us[n].pair == pair {
        assert LastFor(us, n, pair);
        assert forall i :: LastFor(us, i, pair) ==> i == n;
      } else {
        assert forall i :: LastFor(us, i, pair) <==> LastFor(us[..n], i, pair);
        assert FreshIn(After(us), pair, maxAge, now) == FreshIn(After(us[..n]), pair, maxAge, now);
      }
    }
  }

  // ----- one poll

  datatype Feed = Feed(pair: Pair, price: Dec)
  datatype Submission = Submission(window: int, feeds: seq<Feed>)

  /** What one poll sees: the height, the clock, the cache, and how each broadcast attempt would end. */
  datatype Poll = Poll(height: nat, now: int, quotes: Quotes, succeeds: nat -> bool)

  datatype Config = Config(pairs: seq<Pair>, voteWindow: int, maxQuoteAge: int, retries: int) {
    function Attempts(): nat {
      if retries < 1 then 1 else retries
    }
  }

  /** The fresh prices of the configured pairs, in order. */
  function FreshFeeds(pairs: seq<Pair>, quotes: Quotes, maxAge: int, now: int): seq<Feed> {
    if pairs == [] then []
    else
      var pair := pairs[|pairs| - 1];
      var price := FreshIn(quotes, pair, maxAge, now);
      FreshFeeds(pairs[..|pairs| - 1], quotes, maxAge, now) + if price.Some? then [Feed(pair, price.value)] else []
  }

  /** Whether one of the first `n` attempts succeeds. */
  ghost predicate SomeAttempt(p: Poll, n: nat) {
    exists i: nat :: i < n && p.succeeds(i)
  }

  /** The batch a poll gets through, if any: once per window, with something fresh to send, and not all attempts failing. */
  ghost function Sent(c: Config, lastWindow: int, p: Poll): Option<Submission> {
    if c.voteWindow <= 0 || p.height / c.voteWindow == lastWindow then None
    else
      var feeds := FreshFeeds(c.pairs, p.quotes, c.maxQuoteAge, p.now);
      if feeds == [] || !SomeAttempt(p, c.Attempts()) then None
      else Some(Submission(p.height / c.voteWindow, feeds))
  }

  ghost function NextWindow(c: Config, lastWindow: int, p: Poll): int {
    match Sent(c, lastWindow, p)
    case None => lastWindow
    case Some(s) => s.window
  }

  class SubmitLoop {
    const config: Config
    const cache: Cache
    var lastWindow: int

    constructor (c: Config, cache: Cache)
      ensures config == c && this.cache == cache && lastWindow == -1
    {
      config := c;
      this.cache := cache;
      lastWindow := -1;
    }

    /** Collects what is fresh now. */
    method Collect(now: int) returns (feeds: seq<Feed>)
      ensures feeds == FreshFeeds(config.pairs, cache.m, config.maxQuoteAge, now)
    {
      feeds := [];
      for i := 0 to |config.pairs|
        invariant feeds == FreshFeeds(config.pairs[..i], cache.m, config.maxQuoteAge, now)
      {
        var price := cache.Fresh(config.pairs[i], config.maxQuoteAge, now);
        assert config.pairs[..i + 1][..i] == config.pairs[..i];
        if price.Some? {
          feeds := feeds + [Feed(config.pairs[i], price.value)];
        }
      }
      assert config.pairs[..|config.pairs|] == config.pairs;
    }

    /** Submits at most once per window; a failed broadcast leaves the window open for the next poll. */
    method MaybeSubmit(height: nat, now: int, succeeds: nat -> bool) returns (sent: Option<Submission>)
      modifies this
      ensures var p := Poll(height, now, cache.m, succeeds);
              && sent == Sent(config, old(lastWindow), p)
              && lastWindow == NextWindow(config, old(lastWindow), p)
    {
      if config.voteWindow <= 0 {
        return None;
      }
      var window := height / config.voteWindow;
      if window == lastWindow {
        return None;
      }
      var feeds := Collect(now);
      if |feeds| == 0 {
        return None;
      }
      ghost var p := Poll(height, now, cache.m, succeeds);
      var attempts := config.Attempts();
      var ok := false;
      var i: nat := 0;
      while i < attempts && !ok
        invariant i <= attempts
        invariant ok == SomeAttempt(p, i)
        decreases attempts - i
      {
        assert SomeAttempt(p, i + 1) <==> SomeAttempt(p, i) || p.succeeds(i);
        ok := succeeds(i);
        i := i + 1;
      }
      assert ok ==> SomeAttempt(p, attempts);
      if !ok {
        return None;
      }
      lastWindow := window;
      return Some(Submission(window, feeds));
    }
  }

  // ----- runs of polls

  /** The loop's last window before poll `n`, starting from a fresh loop. */
  ghost function LastWindow(c: Config, ps: seq<Poll>, n: nat): int
    requires n <= |ps|
  {
    if n == 0 then -1 else NextWindow(c, LastWindow(c, ps, n - 1), ps[n - 1])
  }

  ghost predicate SubmitsAt(c: Config, ps: seq<Poll>, i: nat)
    requires i < |ps|
  {
    Sent(c, LastWindow(c, ps, i), ps[i]).Some?
  }

  ghost predicate HeightsGrow(ps: seq<Poll>) {
    forall i, j :: 0 <= i < j < |ps| ==> ps[i].height <= ps[j].height
  }

  lemma DivMonotone(a: nat, b: nat, v: int)
    requires a <= b && v > 0
    ensures a / v <= b / v
  {
    DivBounds(a, v);
    DivAtLeast(b, v, a / v);
  }

  /** The last window is never ahead of the height, and at least that of any earlier submission. */
  lemma {:induction false} LastWindowBounds(c: Config, ps: seq<Poll>, i: nat, n: nat)
    requires HeightsGrow(ps) && c.voteWindow > 0 && i < n <= |ps| && SubmitsAt(c, ps, i)
    ensures ps[i].height / c.voteWindow <= LastWindow(c, ps, n) <= ps[n - 1].height / c.voteWindow
    decreases n
  {
    if n > i + 1 {
      LastWindowBounds(c, ps, i, n - 1);
      DivMonotone(ps[n - 2].height, ps[n - 1].height, c.voteWindow);
    }
  }

  /** With heights that do not go back, successful submissions fall into strictly increasing windows. */
  lemma WindowsIncrease(c: Config, ps: seq<Poll>, i: nat, j: nat)
    requires HeightsGrow(ps) && i < j < |ps| && SubmitsAt(c, ps, i) && SubmitsAt(c, ps, j)
    ensures ps[i].height / c.voteWindow < ps[j].height / c.voteWindow
  {
    LastWindowBounds(c, ps, i, j);
    DivMonotone(ps[j - 1].height, ps[j].height, c.voteWindow);
  }

  /** Everything sent was a healthy price of a configured pair, at most the maximum age old when the attempt began. */
  lemma {:induction false} SentIsFresh(pairs: seq<Pair>, quotes: Quotes, maxAge: int, now: int, f: Feed)
    requires f in FreshFeeds(pairs, quotes, maxAge, now)
    ensures f.pair in pairs && f.pair in quotes && quotes[f.pair].healthy
    ensures quotes[f.pair].price == f.price && now - quotes[f.pair].at <= maxAge
  {
    var n := |pairs| - 1;
    if f in FreshFeeds(pairs[..n], quotes, maxAge, now) {
      SentIsFresh(pairs[..n], quotes, maxAge, now, f);
    }
  }

  /** The pair's cached price is healthy and young enough. */
  ghost predicate Sendable(quotes: Quotes, maxAge: int, now: int, f: Feed) {
    f.pair in quotes && quotes[f.pair] == Entry(f.price, quotes[f.pair].at, true) && quotes[f.pair].at >= now - maxAge
  }

  /** A poll collects exactly the sendable prices of the configured pairs. */
  lemma {:induction false} CollectsExactly(pairs: seq<Pair>, quotes: Quotes, maxAge: int, now: int, f: Feed)
    ensures f in FreshFeeds(pairs, quotes, maxAge, now) <==> f.pair in pairs && Sendable(quotes, maxAge, now, f)
  {
    if pairs != [] {
      var n := |pairs| - 1;
      CollectsExactly(pairs[..n], quotes, maxAge, now, f);
      assert f.pair in pairs <==> f.pair in pairs[..n] || f.pair == pairs[n];
    }
  }

  lemma CollectsLast(ps: seq<Pair>, pair: Pair, quotes: Quotes, maxAge: int, now: int)
    ensures FreshFeeds(ps + [pair], quotes, maxAge, now) ==
            FreshFeeds(ps, quotes, maxAge, now) + FreshFeeds([pair], quotes, maxAge, now)
  {
    assert (ps + [pair])[..|ps|] == ps;
    assert [pair][..0] == [];
    assert FreshFeeds([], quotes, maxAge, now) == [];
  }

  lemma ConcatAssociates<T>(a: seq<T>, b: seq<T>, c: seq<T>)
    ensures (a + b) + c == a + (b + c)
  {
  }

  /** In the order of the pairs: what is collected from two lists of pairs is what is collected from one after the other. */
  lemma {:induction false} CollectsInOrder(ps: seq<Pair>, qs: seq<Pair>, quotes: Quotes, maxAge: int, now: int)
    ensures FreshFeeds(ps + qs, quotes, maxAge, now) == FreshFeeds(ps, quotes, maxAge, now) + FreshFeeds(qs, quotes, maxAge, now)
    decreases |qs|
  {
    if qs == [] {
      assert ps + qs == ps;
    } else {
      var rest, pair := qs[..|qs| - 1], qs[|qs| - 1];
      CollectsInOrder(ps, rest, quotes, maxAge, now);
      CollectsLast(rest, pair, quotes, maxAge, now);
      CollectsLast(ps + rest, pair, quotes, maxAge, now);
      assert qs == rest + [pair] && ps + qs == (ps + rest) + [pair];
      ConcatAssociates(FreshFeeds(ps, quotes, maxAge, now), FreshFeeds(rest, quotes, maxAge, now),
                       FreshFeeds([pair], quotes, maxAge, now));
    }
  }

  ghost predicate SomethingSendable(c: Config, p: Poll) {
    exists f: Feed :: f.pair in c.pairs && Sendable(p.quotes, c.maxQuoteAge, p.now, f)
  }

  /** One of the attempts, of which there are as many as configured and at least one, succeeds. */
  ghost predicate GetsThrough(c: Config, p: Poll) {
    exists i: nat :: (i == 0 || i < c.retries) && p.succeeds(i)
  }

  lemma GetsThroughExactly(c: Config, p: Poll)
    ensures SomeAttempt(p, c.Attempts()) <==> GetsThrough(c, p)
  {
    if i: nat :| i < c.Attempts() && p.succeeds(i) {
      assert (i == 0 || i < c.retries) && p.succeeds(i);
    }
    if i: nat :| (i == 0 || i < c.retries) && p.succeeds(i) {
      assert i < c.Attempts() && p.succeeds(i);
    }
  }

  /** A poll submits exactly when there is a window, it is not the last one submitted to, something is sendable, and an
      attempt succeeds; it then submits what it collects, for the height's window. */
  lemma SendsExactly(c: Config, lastWindow: int, p: Poll)
    ensures Sent(c, lastWindow, p).Some? <==>
            c.voteWindow > 0 && p.height / c.voteWindow != lastWindow && SomethingSendable(c, p) && GetsThrough(c, p)
    ensures Sent(c, lastWindow, p).Some? ==>
              && c.voteWindow > 0 && Sent(c, lastWindow, p).value.window == p.height / c.voteWindow
              && Sent(c, lastWindow, p).value.feeds == FreshFeeds(c.pairs, p.quotes, c.maxQuoteAge, p.now)
    ensures NextWindow(c, lastWindow, p) == if Sent(c, lastWindow, p).Some? then Sent(c, lastWindow, p).value.window else lastWindow
  {
    var feeds := FreshFeeds(c.pairs, p.quotes, c.maxQuoteAge, p.now);
    GetsThroughExactly(c, p);
    if feeds != [] {
      CollectsExactly(c.pairs, p.quotes, c.maxQuoteAge, p.now, feeds[0]);
    }
    if f: Feed :| f.pair in c.pairs && Sendable(p.quotes, c.maxQuoteAge, p.now, f) {
      CollectsExactly(c.pairs, p.quotes, c.maxQuoteAge, p.now, f);
    }
  }

  ghost predicate SubmittedIn(c: Config, ps: seq<Poll>, n: nat, w: int)
    requires n <= |ps| && c.voteWindow > 0
  {
    exists j: nat :: j < n && SubmitsAt(c, ps, j) && ps[j].height / c.voteWindow == w
  }

  lemma SubmittedLater(c: Config, ps: seq<Poll>, n: nat, w: int)
    requires n < |ps| && c.voteWindow > 0 && SubmittedIn(c, ps, n, w)
    ensures SubmittedIn(c, ps, n + 1, w)
  {
    var j: nat :| j < n && SubmitsAt(c, ps, j) && ps[j].height / c.voteWindow == w;
    assert j < n + 1;
  }

  /** The last window, once there is one, is that of an earlier submission. */
  lemma {:induction false} LastWindowIsSubmitted(c: Config, ps: seq<Poll>, n: nat)
    requires n <= |ps| && c.voteWindow > 0
    ensures LastWindow(c, ps, n) == -1 || SubmittedIn(c, ps, n, LastWindow(c, ps, n))
  {
    if n > 0 {
      LastWindowIsSubmitted(c, ps, n - 1);
      SendsExactly(c, LastWindow(c, ps, n - 1), ps[n - 1]);
      if SubmitsAt(c, ps, n - 1) {
        assert LastWindow(c, ps, n) == ps[n - 1].height / c.voteWindow;
      } else if LastWindow(c, ps, n - 1) != -1 {
        SubmittedLater(c, ps, n - 1, LastWindow(c, ps, n - 1));
      }
    }
  }

  /** With heights that do not go back, a poll submits exactly when nothing was submitted in its window before,
      something is sendable and an attempt succeeds: no window with a chance is missed and none is served twice. */
  lemma OncePerWindowExactly(c: Config, ps: seq<Poll>, i: nat)
    requires HeightsGrow(ps) && i < |ps| && c.voteWindow > 0
    ensures SubmitsAt(c, ps, i) <==>
            !SubmittedIn(c, ps, i, ps[i].height / c.voteWindow) && SomethingSendable(c, ps[i]) && GetsThrough(c, ps[i])
  {
    SendsExactly(c, LastWindow(c, ps, i), ps[i]);
    LastWindowIsSubmitted(c, ps, i);
    DivBounds(ps[i].height, c.voteWindow);
    if j: nat :| j < i && SubmitsAt(c, ps, j) && ps[j].height / c.voteWindow == ps[i].height / c.voteWindow {
      if SubmitsAt(c, ps, i) {
        WindowsIncrease(c, ps, j, i);
      }
    }
  }

  // ----- alignment with the chain

  /** The first height at or after `b` at which the chain closes a vote window. */
  ghost predicate IsNextBoundary(b: nat, v: int, h: nat)
    requires v > 0
  {
    b <= h && h % v == 0 && forall k: nat :: b <= k < h ==> k % v != 0
  }

  /** A batch seen at height h and included in block b is aggregated at the end of window h / v exactly when it is
      included no later than that; the very next block always is. */
  lemma AggregatedInItsWindow(h: nat, b: nat, v: int)
    requires v > 0 && h < b
    ensures IsNextBoundary(b, v, (h / v + 1) * v) <==> b <= (h / v + 1) * v
    ensures h + 1 <= (h / v + 1) * v
  {
    var w := h / v;
    DivBounds(h, v);
    MultipleHasNoRemainder(w + 1, v);
    if b <= (w + 1) * v {
      forall k: nat | b <= k < (w + 1) * v ensures k % v != 0 {
        BetweenMultiples(k, w, v);
      }
    }
  }

  lemma MultipleHasNoRemainder(q: nat, v: int)
    requires v > 0
    ensures q * v >= 0 && (q * v) % v == 0
  {
    MulMono(0, q, v);
    DivBounds(q * v, v);
    DivAtLeast(q * v, v, q);
    DivAtMost(q * v, v, q);
    assert q * v == (q * v / v) * v + (q * v) % v;
  }

  lemma BetweenMultiples(k: nat, w: nat, v: int)
    requires v > 0 && w * v < k < (w + 1) * v
    ensures k % v != 0
  {
    DivAtLeast(k, v, w);
    DivAtMost(k, v, w);
    assert k == (k / v) * v + k % v;
  }

  /** So two successful submissions, each included in the block after the one it saw, meet two different boundaries. */
  lemma BoundariesDiffer(c: Config, ps: seq<Poll>, i: nat, j: nat)
    requires HeightsGrow(ps) && i < j < |ps| && SubmitsAt(c, ps, i) && SubmitsAt(c, ps, j)
    ensures c.voteWindow > 0
    ensures (ps[i].height / c.voteWindow + 1) * c.voteWindow < (ps[j].height / c.voteWindow + 1) * c.voteWindow
  {
    WindowsIncrease(c, ps, i, j);
    var v, wi, wj := c.voteWindow, ps[i].height / c.voteWindow, ps[j].height / c.voteWindow;
    MulMono(wi + 2, wj + 1, v);
    assert (wi + 2) * v == (wi + 1) * v + v;
  }
}
