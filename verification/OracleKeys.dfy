/** Store keys of x/oracle: every record of every kind lives in one byte-keyed store. */
module OracleKeys {
  import opened Bytes

  type Pair = Bytes

  /** Block times as non-negative int64 Unix nanoseconds. */
  type Time = t: int | 0 <= t < 0x8000_0000_0000_0000

  /** What a store key stands for. */
  datatype Key =
    | FeedAt(val: Addr, pair: Pair)
    | PriceAt(pair: Pair)
    | TwapAt(pair: Pair, time: Time)
    | MissOf(val: Addr)
    | TotalOf(val: Addr)
    | ParamsKey
    | ValidatorOf(feeder: Addr)
    | FeederOf(val: Addr)

  /** The SDK's length prefix: one length byte, except that the empty string stays empty. */
  function LengthPrefix(b: Bytes): Bytes
    requires |b| <= 255
  {
    if b == [] then [] else [|b|] + b
  }

  function FeedKey(val: Bytes, pair: Pair): Bytes
    requires |val| <= 255
  {
    [1] + LengthPrefix(val) + ([SLASH] + pair)
  }

  lemma Pow256Of8()
    ensures Pow256(8) == 0x1_0000_0000_0000_0000
  {
    assert Pow256(4) == 0x1_0000_0000;
    assert Pow256(8) == 256 * (256 * (256 * (256 * Pow256(4))));
  }

  function TimeBytes(t: Time): (b: Bytes)
    ensures |b| == 8
  {
    Pow256Of8();
    BigEndian(t, 8)
  }

  function TwapPrefix(pair: Pair): Bytes {
    [3] + pair + [SLASH]
  }

  function TwapKey(pair: Pair, t: Time): Bytes {
    TwapPrefix(pair) + TimeBytes(t)
  }

  function RawKey(k: Key): Bytes {
    match k
    case FeedAt(val, pair) => FeedKey(val, pair)
    case PriceAt(pair) => [2] + pair
    case TwapAt(pair, time) => TwapKey(pair, time)
    case MissOf(val) => [4] + val
    case TotalOf(val) => [5] + val
    case ParamsKey => [6]
    case ValidatorOf(feeder) => [7] + feeder
    case FeederOf(val) => [8] + val
  }

  datatype ParsedFeed = BadKey | GoodKey(val: Bytes, pair: Pair)

  function ParseFeedKey(key: Bytes): ParsedFeed {
    if |key| < 3 || key[0] != 1 then BadKey
    else
      var rest := key[1..];
      var n: int := rest[0];
      if |rest| < 1 + n then BadKey
      else
        var val, tail := rest[1..1 + n], rest[1 + n..];
        if tail == [] || tail[0] != SLASH then BadKey else GoodKey(val, tail[1..])
  }

  // ----- feed keys

  /** Parsing inverts key construction exactly for non-empty addresses. */
  lemma FeedKeyRoundTrip(val: Bytes, pair: Pair)
    requires |val| <= 255
    ensures ParseFeedKey(FeedKey(val, pair)) == GoodKey(val, pair) <==> val != []
  {
    var key := FeedKey(val, pair);
    var rest := key[1..];
    assert rest == LengthPrefix(val) + ([SLASH] + pair);
    if val != [] {
      assert rest[0] == |val|;
      assert rest[1..1 + |val|] == val;
      assert rest[1 + |val|..] == [SLASH] + pair;
    } else {
      assert rest[0] == SLASH;
    }
  }

  /** Whatever parses is the key of what it parses to. */
  lemma ParsedKeyIsFeedKey(key: Bytes)
    requires ParseFeedKey(key).GoodKey? && ParseFeedKey(key).val != []
    ensures var f := ParseFeedKey(key); |f.val| <= 255 && key == FeedKey(f.val, f.pair)
  {
  }

  /** Why the empty address must be excluded: its feed keys collide with those of real addresses. */
  lemma EmptyAddressCollides(addr: Bytes, pair: Pair)
    requires |addr| == SLASH
    ensures FeedKey([], addr + [SLASH] + pair) == FeedKey(addr, pair)
  {
  }

  // ----- one store, no confusion

  /** Two records share a key only if they are the same record, across all eight kinds. */
  lemma RawKeyInjective(a: Key, b: Key)
    requires RawKey(a) == RawKey(b)
    ensures a == b
  {
    assert RawKey(a)[0] == RawKey(b)[0];
    match a
    case FeedAt(val, pair) =>
      FeedKeyRoundTrip(val, pair);
      FeedKeyRoundTrip(b.val, b.pair);
    case TwapAt(pair, time) => TwapKeyInjective(pair, time, b.pair, b.time);
    case PriceAt(pair) => assert pair == RawKey(a)[1..] && b.pair == RawKey(b)[1..];
    case MissOf(val) => assert val == RawKey(a)[1..] && b.val == RawKey(b)[1..];
    case TotalOf(val) => assert val == RawKey(a)[1..] && b.val == RawKey(b)[1..];
    case ParamsKey =>
    case ValidatorOf(feeder) => assert feeder == RawKey(a)[1..] && b.feeder == RawKey(b)[1..];
    case FeederOf(val) => assert val == RawKey(a)[1..] && b.val == RawKey(b)[1..];
  }

  lemma TwapKeyInjective(p: Pair, s: Time, q: Pair, t: Time)
    requires TwapKey(p, s) == TwapKey(q, t)
    ensures p == q && s == t
  {
    assert |TwapPrefix(p)| == |TwapPrefix(q)|;
    ConcatInjective(TwapPrefix(p), TimeBytes(s), TwapPrefix(q), TimeBytes(t));
    assert p == TwapPrefix(p)[1..|p| + 1] && q == TwapPrefix(q)[1..|q| + 1];
    Pow256Of8();
    BigEndianInjective(s, t, 8);
  }

  // ----- TWAP scans

  /** Scanning the prefix of one slash-free pair meets the samples of that pair and no other record. */
  lemma TwapScanIsExact(pair: Pair, k: Key)
    requires SLASH !in pair
    requires k.TwapAt? ==> SLASH !in k.pair
    ensures TwapPrefix(pair) <= RawKey(k) <==> k.TwapAt? && k.pair == pair
  {
    var raw := RawKey(k);
    assert TwapPrefix(pair) <= raw ==> raw[0] == 3;
    if k.TwapAt? && TwapPrefix(pair) <= raw {
      assert raw == [3] + k.pair + [SLASH] + TimeBytes(k.time);
      assert raw[|pair| + 1] == SLASH && raw[|k.pair| + 1] == SLASH;
      assert pair == TwapPrefix(pair)[1..|pair| + 1] == raw[1..|pair| + 1] == k.pair;
    }
  }

  /** Samples of one pair are stored in time order. */
  lemma TwapKeyOrder(pair: Pair, s: Time, t: Time)
    ensures Less(TwapKey(pair, s), TwapKey(pair, t)) <==> s < t
  {
    Pow256Of8();
    LessAfterPrefix(TwapPrefix(pair), TimeBytes(s), TimeBytes(t));
    if s < t {
      BigEndianOrder(s, t, 8);
    } else if t < s {
      BigEndianOrder(t, s, 8);
      if Less(TimeBytes(s), TimeBytes(t)) {
        LessTransitive(TimeBytes(s), TimeBytes(t), TimeBytes(s));
        LessIrreflexive(TimeBytes(s));
      }
    } else {
      LessIrreflexive(TimeBytes(s));
    }
  }
}
