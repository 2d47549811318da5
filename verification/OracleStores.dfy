/** The byte-keyed sections of the x/oracle store that are scanned: pending feeds and TWAP samples.
    Scans are shown to visit exactly the typed records, in a known order. */
module OracleStores {
  import opened Bytes
  import opened Dec
  import opened Sums
  import opened KvStore
  import opened OracleKeys
  import opened OracleState
  import opened OracleTwap

  // ----- feeds

  ghost predicate IsFeedRecord(k: Bytes, feeds: map<FeedId, Feed>) {
    var f := ParseFeedKey(k);
    f.GoodKey? && 0 < |f.val| <= 255 && FeedId(f.val, f.pair) in feeds && k == FeedKey(f.val, f.pair)
  }

  ghost predicate FeedAtKey(id: FeedId, feed: Feed, raw: map<Bytes, Feed>) {
    var k := FeedKey(id.val, id.pair);
    k in raw && raw[k] == feed
  }

  /** The raw section holds the typed feeds under their keys, and nothing else. */
  ghost predicate FeedsMatch(raw: map<Bytes, Feed>, feeds: map<FeedId, Feed>) {
    && (forall id {:trigger FeedAtKey(id, feeds[id], raw)} :: id in feeds ==> FeedAtKey(id, feeds[id], raw))
    && (forall k {:trigger IsFeedRecord(k, feeds)} :: k in raw ==> IsFeedRecord(k, feeds))
  }

  lemma FeedKeyInjective(a: FeedId, b: FeedId)
    requires FeedKey(a.val, a.pair) == FeedKey(b.val, b.pair)
    ensures a == b
  {
    FeedKeyRoundTrip(a.val, a.pair);
    FeedKeyRoundTrip(b.val, b.pair);
  }

  method PutFeed(raw: map<Bytes, Feed>, ghost feeds: map<FeedId, Feed>, id: FeedId, feed: Feed)
    returns (raw': map<Bytes, Feed>)
    requires FeedsMatch(raw, feeds)
    ensures FeedsMatch(raw', feeds[id := feed])
  {
    var key := FeedKey(id.val, id.pair);
    raw' := raw[key := feed];
    ghost var feeds' := feeds[id := feed];
    forall a | a in feeds' ensures FeedAtKey(a, feeds'[a], raw') {
      if a != id {
        assert FeedAtKey(a, feeds[a], raw);
        if FeedKey(a.val, a.pair) == key {
          FeedKeyInjective(a, id);
        }
      }
    }
    forall k | k in raw' ensures IsFeedRecord(k, feeds') {
      if k == key {
        FeedKeyRoundTrip(id.val, id.pair);
      } else {
        assert IsFeedRecord(k, feeds);
      }
    }
  }

  ghost predicate FeedsInOrder(ids: seq<FeedId>) {
    forall i, j {:trigger KeyBefore(ids[i], ids[j])} :: 0 <= i < j < |ids| ==> KeyBefore(ids[i], ids[j])
  }

  ghost predicate Visits(feeds: map<FeedId, Feed>, k: Bytes, id: FeedId, feed: Feed) {
    id in feeds && feed == feeds[id] && k == FeedKey(id.val, id.pair)
  }

  ghost predicate Visited(feeds: map<FeedId, Feed>, keys: seq<Bytes>, ids: seq<FeedId>, visits: seq<Feed>) {
    |keys| == |ids| == |visits|
    && forall i {:trigger Visits(feeds, keys[i], ids[i], visits[i])} ::
         0 <= i < |ids| ==> Visits(feeds, keys[i], ids[i], visits[i])
  }

  lemma VisitOne(feeds: map<FeedId, Feed>, keys: seq<Bytes>, ids: seq<FeedId>, visits: seq<Feed>, k: Bytes, id: FeedId, feed: Feed)
    requires Visited(feeds, keys, ids, visits) && Visits(feeds, k, id, feed)
    ensures Visited(feeds, keys + [k], ids + [id], visits + [feed])
  {
    forall i | 0 <= i < |ids| + 1 ensures Visits(feeds, (keys + [k])[i], (ids + [id])[i], (visits + [feed])[i]) {
      if i < |ids| {
        assert Visits(feeds, keys[i], ids[i], visits[i]);
      }
    }
  }

  method ReadRecord(raw: map<Bytes, Feed>, ghost feeds: map<FeedId, Feed>, k: Bytes) returns (id: FeedId, feed: Feed)
    requires FeedsMatch(raw, feeds) && k in raw
    ensures Visits(feeds, k, id, feed)
  {
    assert IsFeedRecord(k, feeds);
    var f := ParseFeedKey(k);
    id, feed := FeedId(f.val, f.pair), raw[k];
    assert FeedAtKey(id, feeds[id], raw);
  }

  /** The feeds in the order IterateAllFeeds visits them: every feed once, in the order of the keys. */
  method IterateAllFeeds(raw: map<Bytes, Feed>, ghost feeds: map<FeedId, Feed>) returns (ids: seq<FeedId>, visits: seq<Feed>)
    requires FeedsMatch(raw, feeds)
    ensures Lists(ids, feeds.Keys) && FeedsInOrder(ids)
    ensures |visits| == |ids| && forall i :: 0 <= i < |ids| ==> ids[i] in feeds && visits[i] == feeds[ids[i]]
  {
    var keys := PrefixIterator(raw, [1]);
    ids, visits := [], [];
    for n := 0 to |keys|
      invariant Visited(feeds, keys[..n], ids, visits)
    {
      assert keys[n] in keys;
      var id, feed := ReadRecord(raw, feeds, keys[n]);
      VisitOne(feeds, keys[..n], ids, visits, keys[n], id, feed);
      assert keys[..n + 1] == keys[..n] + [keys[n]];
      ids, visits := ids + [id], visits + [feed];
    }
    assert keys[..|keys|] == keys;
    ScanListsFeeds(raw, feeds, keys, ids, visits);
  }

  lemma ScanListsFeeds(raw: map<Bytes, Feed>, feeds: map<FeedId, Feed>, keys: seq<Bytes>, ids: seq<FeedId>, visits: seq<Feed>)
    requires FeedsMatch(raw, feeds) && IsPrefixScan(raw, [1], keys) && Visited(feeds, keys, ids, visits)
    ensures Lists(ids, feeds.Keys) && FeedsInOrder(ids)
    ensures |visits| == |ids| && forall i :: 0 <= i < |ids| ==> ids[i] in feeds && visits[i] == feeds[ids[i]]
  {
    forall i | 0 <= i < |ids| ensures ids[i] in feeds && visits[i] == feeds[ids[i]] && keys[i] == FeedKey(ids[i].val, ids[i].pair) {
      assert Visits(feeds, keys[i], ids[i], visits[i]);
    }
    AscendingDistinct(keys);
    forall id | id in feeds ensures id in ids {
      assert FeedAtKey(id, feeds[id], raw);
      assert FeedKey(id.val, id.pair) in keys;
      var i :| 0 <= i < |keys| && keys[i] == FeedKey(id.val, id.pair);
      FeedKeyInjective(id, ids[i]);
    }
  }

  method DeleteAllFeeds(raw: map<Bytes, Feed>, ghost feeds: map<FeedId, Feed>) returns (raw': map<Bytes, Feed>)
    requires FeedsMatch(raw, feeds)
    ensures raw' == map[] && FeedsMatch(raw', map[])
  {
    var keys := PrefixIterator(raw, [1]);
    raw' := raw;
    for i := 0 to |keys|
      invariant raw'.Keys == raw.Keys - Elements(keys[..i])
    {
      raw' := raw' - {keys[i]};
      assert Elements(keys[..i + 1]) == Elements(keys[..i]) + {keys[i]};
    }
    assert keys[..|keys|] == keys;
    forall k | k in raw ensures k in keys {
      assert IsFeedRecord(k, feeds);
    }
    assert raw'.Keys == {};
  }

  // ----- samples

  ghost predicate IsSampleRecord(k: Bytes, e: TwapEntry, twap: map<SampleId, Dec>) {
    SampleId(e.pair, e.time) in twap && twap[SampleId(e.pair, e.time)] == e.price && k == TwapKey(e.pair, e.time)
  }

  ghost predicate SampleAtKey(id: SampleId, raw: map<Bytes, TwapEntry>) {
    SLASH !in id.pair && TwapKey(id.pair, id.time) in raw
  }

  ghost predicate TwapMatch(raw: map<Bytes, TwapEntry>, twap: map<SampleId, Dec>) {
    && (forall id {:trigger SampleAtKey(id, raw)} :: id in twap ==> SampleAtKey(id, raw))
    && (forall k {:trigger IsSampleRecord(k, raw[k], twap)} :: k in raw ==> IsSampleRecord(k, raw[k], twap))
  }

  method PutSample(raw: map<Bytes, TwapEntry>, ghost twap: map<SampleId, Dec>, pair: Pair, price: Dec, time: Time)
    returns (raw': map<Bytes, TwapEntry>)
    requires TwapMatch(raw, twap) && SLASH !in pair
    ensures TwapMatch(raw', twap[SampleId(pair, time) := price])
  {
    var key := TwapKey(pair, time);
    ghost var twap' := twap[SampleId(pair, time) := price];
    raw' := raw[key := TwapEntry(pair, price, time)];
    forall id | id in twap' ensures SampleAtKey(id, raw') {
      assert id in twap ==> SampleAtKey(id, raw);
    }
    forall k | k in raw' ensures IsSampleRecord(k, raw'[k], twap') {
      if k != key {
        assert IsSampleRecord(k, raw[k], twap);
      }
    }
  }

  /** The stored samples of one pair, oldest first: all of them, each once. */
  ghost predicate IsSampleList(es: seq<TwapEntry>, twap: map<SampleId, Dec>, pair: Pair) {
    && TimesAscend(es)
    && (forall i :: 0 <= i < |es| ==> IsSample(es[i], twap, pair))
    && (forall t: Time :: SampleId(pair, t) in twap ==> HasTime(es, t))
  }

  ghost predicate KeysOf(keys: seq<Bytes>, es: seq<TwapEntry>) {
    |keys| == |es| && forall i :: 0 <= i < |es| ==> keys[i] == TwapKey(es[i].pair, es[i].time)
  }

  /** Iterator over one pair's samples. */
  method IterateSamples(raw: map<Bytes, TwapEntry>, ghost twap: map<SampleId, Dec>, pair: Pair)
    returns (keys: seq<Bytes>, es: seq<TwapEntry>)
    requires TwapMatch(raw, twap) && SLASH !in pair
    ensures IsSampleList(es, twap, pair) && KeysOf(keys, es)
  {
    keys := PrefixIterator(raw, TwapPrefix(pair));
    es := [];
    for n := 0 to |keys|
      invariant |es| == n
      invariant forall i :: 0 <= i < n ==> IsSample(es[i], twap, pair) && keys[i] == TwapKey(es[i].pair, es[i].time)
    {
      assert keys[n] in keys;
      var e := raw[keys[n]];
      assert IsSampleRecord(keys[n], e, twap);
      assert SampleAtKey(SampleId(e.pair, e.time), raw);
      TwapScanIsExact(pair, TwapAt(e.pair, e.time));
      es := es + [e];
    }
    ScanListsSamples(raw, twap, pair, keys, es);
  }

  lemma ScanListsSamples(raw: map<Bytes, TwapEntry>, twap: map<SampleId, Dec>, pair: Pair, keys: seq<Bytes>, es: seq<TwapEntry>)
    requires TwapMatch(raw, twap) && SLASH !in pair
    requires IsPrefixScan(raw, TwapPrefix(pair), keys) && KeysOf(keys, es)
    requires forall i :: 0 <= i < |es| ==> IsSample(es[i], twap, pair)
    ensures IsSampleList(es, twap, pair)
  {
    forall i, j | 0 <= i < j < |es| ensures es[i].time < es[j].time {
      assert Less(keys[i], keys[j]);
      TwapKeyOrder(pair, es[i].time, es[j].time);
    }
    forall t: Time | SampleId(pair, t) in twap ensures HasTime(es, t) {
      assert SampleAtKey(SampleId(pair, t), raw);
      TwapScanIsExact(pair, TwapAt(pair, t));
      assert TwapKey(pair, t) in keys;
      var i :| 0 <= i < |keys| && keys[i] == TwapKey(pair, t);
      TwapKeyInjective(pair, t, pair, es[i].time);
    }
  }

  /** The samples of `twap` without those of `pair` before `cutoff`. */
  ghost function Pruned(twap: map<SampleId, Dec>, pair: Pair, cutoff: int): map<SampleId, Dec> {
    map id | id in twap && !(id.pair == pair && id.time < cutoff) :: twap[id]
  }

  /** Deletes from the oldest sample on and stops at the first one young enough. */
  method PruneOlderThan(raw: map<Bytes, TwapEntry>, ghost twap: map<SampleId, Dec>, pair: Pair, cutoff: int)
    returns (raw': map<Bytes, TwapEntry>)
    requires TwapMatch(raw, twap) && SLASH !in pair
    ensures TwapMatch(raw', Pruned(twap, pair, cutoff))
  {
    var keys, es := IterateSamples(raw, twap, pair);
    var n := 0;
    while n < |es| && es[n].time < cutoff
      invariant 0 <= n <= |es|
      invariant forall i :: 0 <= i < n ==> es[i].time < cutoff
    {
      n := n + 1;
    }
    raw' := raw;
    for i := 0 to n
      invariant raw' == raw - Elements(keys[..i])
    {
      raw' := raw' - {keys[i]};
      assert Elements(keys[..i + 1]) == Elements(keys[..i]) + {keys[i]};
    }
    PruneMatches(raw, twap, pair, cutoff, keys, es, n);
  }

  /** Because samples ascend, stopping early deletes every sample before the cutoff. */
  lemma PruneMatches(raw: map<Bytes, TwapEntry>, twap: map<SampleId, Dec>, pair: Pair, cutoff: int,
                     keys: seq<Bytes>, es: seq<TwapEntry>, n: nat)
    requires TwapMatch(raw, twap) && IsSampleList(es, twap, pair) && KeysOf(keys, es)
    requires n <= |es| && forall i :: 0 <= i < n ==> es[i].time < cutoff
    requires n < |es| ==> es[n].time >= cutoff
    ensures TwapMatch(raw - Elements(keys[..n]), Pruned(twap, pair, cutoff))
  {
    var gone, kept := Elements(keys[..n]), Pruned(twap, pair, cutoff);
    forall id | id in kept ensures SampleAtKey(id, raw - gone) {
      assert SampleAtKey(id, raw);
      if TwapKey(id.pair, id.time) in gone {
        var i :| 0 <= i < n && keys[i] == TwapKey(id.pair, id.time);
        TwapKeyInjective(id.pair, id.time, es[i].pair, es[i].time);
      }
    }
    forall k | k in raw && k !in gone ensures IsSampleRecord(k, raw[k], kept) {
      var e := raw[k];
      assert IsSampleRecord(k, e, twap);
      if e.pair == pair {
        assert HasTime(es, e.time);
        var i :| 0 <= i < |es| && es[i].time == e.time;
        assert keys[i] == k;
      }
    }
  }

  // ----- the window of a query

  ghost predicate IsWalk(es: seq<TwapEntry>, now: int, start: int, lo: nat, hi: nat) {
    && lo <= hi <= |es|
    && (forall j :: hi <= j < |es| ==> es[j].time > now)
    && (lo < hi ==> es[hi - 1].time <= now)
    && (forall j :: lo < j < hi ==> es[j].time > start)
    && (lo == 0 || (lo < hi && es[lo].time <= start))
  }

  lemma WalkedContributes(es: seq<TwapEntry>, twap: map<SampleId, Dec>, pair: Pair, now: int, start: int,
                          lo: nat, hi: nat, j: nat)
    requires IsSampleList(es, twap, pair) && IsWalk(es, now, start, lo, hi) && lo <= j < hi
    ensures Contributes(twap, pair, now, start, es[j].time)
  {
    assert IsSample(es[j], twap, pair);
    assert es[j].time <= es[hi - 1].time;
    forall u: Time | SampleId(pair, u) in twap && es[j].time < u <= now ensures u > start {
      assert HasTime(es, u);
      var k :| 0 <= k < |es| && es[k].time == u;
    }
  }

  lemma ContributorWalked(es: seq<TwapEntry>, twap: map<SampleId, Dec>, pair: Pair, now: int, start: int,
                          lo: nat, hi: nat, t: Time) returns (k: nat)
    requires IsSampleList(es, twap, pair) && IsWalk(es, now, start, lo, hi)
    requires Contributes(twap, pair, now, start, t)
    ensures lo <= k < hi && es[k].time == t
  {
    assert HasTime(es, t);
    k :| 0 <= k < |es| && es[k].time == t;
  }

  lemma WalkExact(es: seq<TwapEntry>, twap: map<SampleId, Dec>, pair: Pair, now: int, start: int, lo: nat, hi: nat, t: Time)
    requires IsSampleList(es, twap, pair) && IsWalk(es, now, start, lo, hi)
    ensures HasTime(es[lo..hi], t) <==> Contributes(twap, pair, now, start, t)
  {
    var w := es[lo..hi];
    if HasTime(w, t) {
      var j :| 0 <= j < |w| && w[j].time == t;
      WalkedContributes(es, twap, pair, now, start, lo, hi, lo + j);
    }
    if Contributes(twap, pair, now, start, t) {
      var k := ContributorWalked(es, twap, pair, now, start, lo, hi, t);
      assert w[k - lo].time == t;
    }
  }

  lemma SliceEnds(es: seq<TwapEntry>, now: int, lo: nat, hi: nat)
    requires TimesAscend(es) && lo <= hi <= |es| && (lo < hi ==> es[hi - 1].time <= now)
    ensures EndsBy(es[lo..hi], now)
  {
    var w := es[lo..hi];
    forall i | 0 <= i < |w| ensures w[i].time <= now {
      assert w[i] == es[lo + i];
    }
    forall i, j | 0 <= i < j < |w| ensures w[i].time < w[j].time {
      assert w[i] == es[lo + i] && w[j] == es[lo + j];
    }
  }

  lemma SliceOfSamples(es: seq<TwapEntry>, twap: map<SampleId, Dec>, pair: Pair, lo: nat, hi: nat)
    requires (forall i :: 0 <= i < |es| ==> IsSample(es[i], twap, pair)) && lo <= hi <= |es|
    ensures forall i :: 0 <= i < |es[lo..hi]| ==> IsSample(es[lo..hi][i], twap, pair)
  {
    forall i | 0 <= i < |es[lo..hi]| ensures IsSample(es[lo..hi][i], twap, pair) {
      assert es[lo..hi][i] == es[lo + i];
    }
  }

  /** Walking back from the newest usable sample stops exactly at the window's leading sample. */
  lemma WalkIsWindow(es: seq<TwapEntry>, twap: map<SampleId, Dec>, pair: Pair, now: int, start: int, lo: nat, hi: nat)
    requires IsSampleList(es, twap, pair) && IsWalk(es, now, start, lo, hi)
    ensures IsWindow(es[lo..hi], twap, pair, now, start) && EndsBy(es[lo..hi], now)
  {
    SliceEnds(es, now, lo, hi);
    SliceOfSamples(es, twap, pair, lo, hi);
    forall t: Time ensures HasTime(es[lo..hi], t) <==> Contributes(twap, pair, now, start, t) {
      WalkExact(es, twap, pair, now, start, lo, hi, t);
    }
  }
}
