/**
 Byte strings, the fixed-width integers Go uses for keys and timestamps, the
 lexicographic order Bolt sorts keys and bucket names by, and the big-endian
 encoding of `encoding/binary` that turns numeric order into that byte order.
 */
module Bytes {

  type byte = x: int | 0 <= x < 256
  type Bytes = seq<byte>

  const TWO_TO_THE_64: int := 0x1_0000_0000_0000_0000
  const MIN_INT64: int := -0x8000_0000_0000_0000
  const MAX_INT64: int := 0x7fff_ffff_ffff_ffff

  type uint64 = x: int | 0 <= x < TWO_TO_THE_64
  type int64 = x: int | MIN_INT64 <= x <= MAX_INT64

  /** Go's conversion `uint64(t)` of an int64: two's-complement reinterpretation. */
  function Int64ToUint64(t: int64): (u: uint64)
    ensures 0 <= t ==> u == t
    ensures t < 0 ==> u == t + TWO_TO_THE_64
  {
    t % TWO_TO_THE_64
  }

  /** Go's conversion `int(u)` of a uint64 on a 64-bit platform. */
  function Uint64ToInt64(u: uint64): (t: int64)
    ensures Int64ToUint64(t) == u
  {
    if u <= MAX_INT64 then u else u - TWO_TO_THE_64
  }

  /** Go's `t + 1` on int64, which wraps from the maximum to the minimum. */
  function Int64Inc(t: int64): (r: int64)
    ensures t < MAX_INT64 ==> r == t + 1
    ensures t == MAX_INT64 ==> r == MIN_INT64
  {
    if t == MAX_INT64 then MIN_INT64 else t + 1
  }

  /** Go's `u + 1` and `u - 1` on uint64, both modulo 2^64. */
  function Uint64Inc(u: uint64): (r: uint64)
    ensures u + 1 < TWO_TO_THE_64 ==> r == u + 1
    ensures u + 1 == TWO_TO_THE_64 ==> r == 0
  {
    (u + 1) % TWO_TO_THE_64
  }

  function Uint64Dec(u: uint64): (r: uint64)
    ensures 0 < u ==> r == u - 1
    ensures u == 0 ==> r == TWO_TO_THE_64 - 1
  {
    (u - 1) % TWO_TO_THE_64
  }

  // ---------------------------------------------------------------------
  // Lexicographic order (Go's bytes.Compare, Bolt's key and bucket order)
  // ---------------------------------------------------------------------

  /** Strict lexicographic order: a proper prefix sorts first, otherwise the
      first differing byte decides. */
  predicate LexLess(a: Bytes, b: Bytes)
  {
    |b| > 0 && (|a| == 0 || a[0] < b[0] || (a[0] == b[0] && LexLess(a[1..], b[1..])))
  }

  lemma {:induction false} LexIrreflexive(a: Bytes)
    ensures !LexLess(a, a)
  {
    if |a| > 0 {
      LexIrreflexive(a[1..]);
    }
  }

  lemma {:induction false} LexAsymmetric(a: Bytes, b: Bytes)
    ensures LexLess(a, b) ==> !LexLess(b, a)
  {
    if |a| > 0 && |b| > 0 && a[0] == b[0] {
      LexAsymmetric(a[1..], b[1..]);
    }
  }

  lemma {:induction false} LexTransitive(a: Bytes, b: Bytes, c: Bytes)
    requires LexLess(a, b) && LexLess(b, c)
    ensures LexLess(a, c)
  {
    if |a| > 0 && a[0] == b[0] && b[0] == c[0] {
      LexTransitive(a[1..], b[1..], c[1..]);
    }
  }

  lemma {:induction false} LexTotal(a: Bytes, b: Bytes)
    ensures a == b || LexLess(a, b) || LexLess(b, a)
  {
    if |a| > 0 && |b| > 0 && a[0] == b[0] {
      LexTotal(a[1..], b[1..]);
      if a[1..] == b[1..] {
        assert a == [a[0]] + a[1..] && b == [b[0]] + b[1..];
      }
    }
  }

  /** Equality is the only way two byte strings can be mutually non-less. */
  lemma LexAsymmetricAll()
    ensures forall a: Bytes, b: Bytes :: LexLess(a, b) ==> !LexLess(b, a)
  {
    forall a: Bytes, b: Bytes
      ensures LexLess(a, b) ==> !LexLess(b, a)
    {
      LexAsymmetric(a, b);
    }
  }

  /** Byte strings sharing a first byte compare as their tails do; different
      first bytes decide on their own. */
  lemma LexPrefixByte(x: byte, a: Bytes, y: byte, b: Bytes)
    ensures LexLess([x] + a, [y] + b) <==> x < y || (x == y && LexLess(a, b))
  {
    assert ([x] + a)[1..] == a;
    assert ([y] + b)[1..] == b;
  }

  // ---------------------------------------------------------------------
  // Big-endian fixed-width encoding (binary.BigEndian.PutUint64 / Uint64)
  // ---------------------------------------------------------------------

  function Pow256(k: nat): (r: nat)
    ensures r > 0
  {
    if k == 0 then 1 else 256 * Pow256(k - 1)
  }

  lemma Pow256Eight()
    ensures Pow256(8) == TWO_TO_THE_64
  {
  }

  /** Appending one byte to equal-length strings: the prefixes decide first,
      the appended bytes only when the prefixes agree. */
  lemma {:induction false} LexAppendByte(s: Bytes, x: byte, t: Bytes, y: byte)
    requires |s| == |t|
    ensures LexLess(s + [x], t + [y]) <==> LexLess(s, t) || (s == t && x < y)
  {
    if |s| > 0 {
      assert (s + [x])[1..] == s[1..] + [x];
      assert (t + [y])[1..] == t[1..] + [y];
      LexAppendByte(s[1..], x, t[1..], y);
      if s[0] == t[0] && s[1..] == t[1..] {
        assert s == [s[0]] + s[1..] && t == [t[0]] + t[1..];
      }
    }
  }

  /** The `width`-byte big-endian representation of n, most significant byte first. */
  function ToBigEndian(n: nat, width: nat): (r: Bytes)
    requires n < Pow256(width)
    ensures |r| == width
  {
    if width == 0 then [] else ToBigEndian(n / 256, width - 1) + [n % 256]
  }

  /** The number a big-endian byte string denotes. */
  function FromBigEndian(s: Bytes): (n: nat)
    ensures n < Pow256(|s|)
  {
    if |s| == 0 then 0 else FromBigEndian(s[..|s| - 1]) * 256 + s[|s| - 1]
  }

  /** Decoding an encoding gives back the number. */
  lemma {:induction false} BigEndianRoundTrip(n: nat, width: nat)
    requires n < Pow256(width)
    ensures FromBigEndian(ToBigEndian(n, width)) == n
  {
    if width > 0 {
      var s := ToBigEndian(n, width);
      assert s[..|s| - 1] == ToBigEndian(n / 256, width - 1);
      BigEndianRoundTrip(n / 256, width - 1);
    }
  }

  /** Encoding a decoded string gives back the string. */
  lemma {:induction false} BigEndianBytesRoundTrip(s: Bytes)
    ensures ToBigEndian(FromBigEndian(s), |s|) == s
  {
    if |s| > 0 {
      var front := s[..|s| - 1];
      BigEndianBytesRoundTrip(front);
      assert s == front + [s[|s| - 1]];
    }
  }

  /** Distinct numbers have distinct encodings. */
  lemma BigEndianInjective(a: nat, b: nat, width: nat)
    requires a < Pow256(width) && b < Pow256(width)
    ensures ToBigEndian(a, width) == ToBigEndian(b, width) ==> a == b
  {
    BigEndianRoundTrip(a, width);
    BigEndianRoundTrip(b, width);
  }

  /** Big-endian encoding turns numeric order into lexicographic byte order,
      in both directions. */
  lemma {:induction false} BigEndianOrder(a: nat, b: nat, width: nat)
    requires a < Pow256(width) && b < Pow256(width)
    ensures a < b <==> LexLess(ToBigEndian(a, width), ToBigEndian(b, width))
  {
    if width > 0 {
      BigEndianOrder(a / 256, b / 256, width - 1);
      BigEndianInjective(a / 256, b / 256, width - 1);
      LexAppendByte(ToBigEndian(a / 256, width - 1), a % 256, ToBigEndian(b / 256, width - 1), b % 256);
    }
  }

  /** `binary.BigEndian.PutUint64(k, v)` into a fresh 8-byte slice. */
  function PutUint64(v: uint64): (k: Bytes)
    ensures |k| == 8
    ensures FromBigEndian(k) == v
  {
    Pow256Eight();
    BigEndianRoundTrip(v, 8);
    ToBigEndian(v, 8)
  }

  /** `binary.BigEndian.Uint64(b)`: reads the first eight bytes; a shorter
      slice makes Go panic, which callers model. */
  function Uint64(b: Bytes): (v: uint64)
    requires |b| >= 8
    ensures ToBigEndian(v, 8) == b[..8]
  {
    Pow256Eight();
    BigEndianBytesRoundTrip(b[..8]);
    FromBigEndian(b[..8])
  }

  /** Reading back a written 8-byte key gives the number written. */
  lemma Uint64RoundTrip(v: uint64)
    ensures Uint64(PutUint64(v)) == v
  {
    Pow256Eight();
    assert PutUint64(v)[..8] == PutUint64(v);
    BigEndianRoundTrip(v, 8);
  }

  /** Every 8-byte string is the encoding of the number it denotes. */
  lemma PutUint64OfUint64(k: Bytes)
    requires |k| == 8
    ensures PutUint64(Uint64(k)) == k
  {
    Pow256Eight();
    assert k[..8] == k;
    BigEndianBytesRoundTrip(k);
  }

  /** Byte order of 8-byte big-endian keys is numeric order of their values. */
  lemma PutUint64Order(a: uint64, b: uint64)
    ensures a < b <==> LexLess(PutUint64(a), PutUint64(b))
  {
    Pow256Eight();
    BigEndianOrder(a, b, 8);
  }

  /** Distinct values have distinct 8-byte keys. */
  lemma PutUint64Injective(a: uint64, b: uint64)
    ensures PutUint64(a) == PutUint64(b) ==> a == b
  {
    Uint64RoundTrip(a);
    Uint64RoundTrip(b);
  }

  /** `binary.BigEndian.PutUint64(b, v)` into an existing slice of at least
      eight bytes: the first eight are overwritten, the rest are kept. */
  function OverwriteUint64(b: Bytes, v: uint64): (r: Bytes)
    requires |b| >= 8
    ensures |r| == |b| && r[8..] == b[8..]
    ensures Uint64(r) == v
  {
    Uint64RoundTrip(v);
    var r := PutUint64(v) + b[8..];
    assert r[..8] == PutUint64(v) == PutUint64(v)[..8];
    r
  }
}
