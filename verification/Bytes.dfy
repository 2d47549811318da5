/** Byte strings, their lexicographic order, and the big-endian encoding of timestamps. */
module Bytes {

  type Byte = x: int | 0 <= x < 256

  type Bytes = seq<Byte>

  /** Account and validator addresses: 1 to 255 bytes. */
  type Addr = b: Bytes | 0 < |b| <= 255 witness [0]

  const SLASH: Byte := 47

  // ----- lexicographic order

  predicate Less(a: Bytes, b: Bytes) {
    b != [] && (a == [] || a[0] < b[0] || (a[0] == b[0] && Less(a[1..], b[1..])))
  }

  lemma {:induction false} LessIrreflexive(a: Bytes)
    ensures !Less(a, a)
  {
    if a != [] {
      LessIrreflexive(a[1..]);
    }
  }

  lemma {:induction false} LessTransitive(a: Bytes, b: Bytes, c: Bytes)
    requires Less(a, b) && Less(b, c)
    ensures Less(a, c)
  {
    if a != [] && a[0] == b[0] && b[0] == c[0] {
      LessTransitive(a[1..], b[1..], c[1..]);
    }
  }

  lemma {:induction false} LessTotal(a: Bytes, b: Bytes)
    requires a != b
    ensures Less(a, b) || Less(b, a)
  {
    if a != [] && b != [] && a[0] == b[0] {
      assert a == [a[0]] + a[1..];
      assert b == [b[0]] + b[1..];
      LessTotal(a[1..], b[1..]);
    }
  }

  /** A common prefix does not change the order. */
  lemma {:induction false} LessAfterPrefix(p: Bytes, a: Bytes, b: Bytes)
    ensures Less(p + a, p + b) <==> Less(a, b)
  {
    if p == [] {
      assert p + a == a && p + b == b;
    } else {
      assert (p + a)[1..] == p[1..] + a;
      assert (p + b)[1..] == p[1..] + b;
      LessAfterPrefix(p[1..], a, b);
    }
  }

  // ----- big-endian integers

  function Pow256(w: nat): (r: int)
    ensures r > 0
  {
    if w == 0 then 1 else 256 * Pow256(w - 1)
  }

  /** `n` in `w` big-endian bytes. */
  function BigEndian(n: nat, w: nat): (b: Bytes)
    requires n < Pow256(w)
    ensures |b| == w
  {
    if w == 0 then [] else BigEndian(n / 256, w - 1) + [n % 256]
  }

  /** Byte order of equally wide encodings is numeric order. */
  lemma {:induction false} BigEndianOrder(m: nat, n: nat, w: nat)
    requires m < n < Pow256(w)
    ensures Less(BigEndian(m, w), BigEndian(n, w))
  {
    var a, b := BigEndian(m / 256, w - 1), BigEndian(n / 256, w - 1);
    if m / 256 < n / 256 {
      BigEndianOrder(m / 256, n / 256, w - 1);
      LessExtends(a, b, [m % 256], [n % 256]);
    } else {
      LessAfterPrefix(a, [m % 256], [n % 256]);
    }
  }

  /** An order decided among equally long strings survives any extension. */
  lemma {:induction false} LessExtends(a: Bytes, b: Bytes, s: Bytes, t: Bytes)
    requires |a| == |b| && Less(a, b)
    ensures Less(a + s, b + t)
  {
    if a[0] == b[0] {
      LessExtends(a[1..], b[1..], s, t);
      assert (a + s)[1..] == a[1..] + s;
      assert (b + t)[1..] == b[1..] + t;
    }
  }

  lemma BigEndianInjective(m: nat, n: nat, w: nat)
    requires m < Pow256(w) && n < Pow256(w)
    requires BigEndian(m, w) == BigEndian(n, w)
    ensures m == n
  {
    if m < n {
      BigEndianOrder(m, n, w);
      LessIrreflexive(BigEndian(m, w));
    } else if n < m {
      BigEndianOrder(n, m, w);
      LessIrreflexive(BigEndian(m, w));
    }
  }

  /** Concatenations with equally long heads agree part by part. */
  lemma ConcatInjective(a: Bytes, b: Bytes, c: Bytes, d: Bytes)
    requires |a| == |c| && a + b == c + d
    ensures a == c && b == d
  {
    assert a == (a + b)[..|a|] && c == (c + d)[..|c|];
    assert b == (a + b)[|a|..] && d == (c + d)[|c|..];
  }
}
