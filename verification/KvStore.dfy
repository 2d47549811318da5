/** The ordered key-value store under every keeper: iteration visits keys in byte order. */
module KvStore {
  import opened Bytes

  ghost predicate Ascending(keys: seq<Bytes>) {
    forall i, j :: 0 <= i < j < |keys| ==> Less(keys[i], keys[j])
  }

  /** The keys an iterator over `prefix` visits, in order. */
  ghost predicate IsPrefixScan<V>(store: map<Bytes, V>, prefix: Bytes, keys: seq<Bytes>) {
    && Ascending(keys)
    && (forall k :: k in keys <==> k in store && prefix <= k)
  }

  /** Splitting an ascending list where a new key belongs keeps it ascending. */
  lemma InsertAscends(keys: seq<Bytes>, k: Bytes, i: nat)
    requires Ascending(keys) && k !in keys && i <= |keys|
    requires forall j :: 0 <= j < i ==> Less(keys[j], k)
    requires i < |keys| ==> !Less(keys[i], k)
    ensures Ascending(keys[..i] + [k] + keys[i..])
  {
    forall j | i <= j < |keys| ensures Less(k, keys[j]) {
      LessTotal(k, keys[i]);
      if i < j {
        LessTransitive(k, keys[i], keys[j]);
      }
    }
  }

  /** Inserts a new key into an ascending list. */
  method InsertKey(keys: seq<Bytes>, k: Bytes) returns (r: seq<Bytes>)
    requires Ascending(keys) && k !in keys
    ensures Ascending(r)
    ensures forall x :: x in r <==> x in keys || x == k
  {
    var i := 0;
    while i < |keys| && Less(keys[i], k)
      invariant 0 <= i <= |keys|
      invariant forall j :: 0 <= j < i ==> Less(keys[j], k)
    {
      i := i + 1;
    }
    r := keys[..i] + [k] + keys[i..];
    InsertAscends(keys, k, i);
    assert keys == keys[..i] + keys[i..];
  }

  /** Forward iterator over all keys that start with `prefix`. */
  method PrefixIterator<V>(store: map<Bytes, V>, prefix: Bytes) returns (keys: seq<Bytes>)
    ensures IsPrefixScan(store, prefix, keys)
  {
    keys := [];
    var rest := set k | k in store && prefix <= k;
    ghost var all := rest;
    while rest != {}
      invariant rest <= all
      invariant Ascending(keys)
      invariant forall k :: k in keys <==> k in all - rest
      decreases |rest|
    {
      var k :| k in rest;
      keys := InsertKey(keys, k);
      rest := rest - {k};
    }
  }

  lemma AscendingDistinct(keys: seq<Bytes>)
    requires Ascending(keys)
    ensures forall i, j :: 0 <= i < j < |keys| ==> keys[i] != keys[j]
  {
    forall i, j | 0 <= i < j < |keys| ensures keys[i] != keys[j] {
      LessIrreflexive(keys[i]);
    }
  }
}
