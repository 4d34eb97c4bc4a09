/** Byte strings, their lexicographic order, and fixed-width big-endian integers. */
module Bytes {
  type byte = x: int | 0 <= x < 256

  type ByteString = seq<byte>

  const U32_LIMIT: int := 0x1_0000_0000
  const U63_LIMIT: int := 0x8000_0000_0000_0000
  const U64_LIMIT: int := 0x1_0000_0000_0000_0000
  const U128_LIMIT: int := 0x1_0000_0000_0000_0000_0000_0000_0000_0000

  type u32 = x: int | 0 <= x < U32_LIMIT
  type u64 = x: int | 0 <= x < U64_LIMIT
  type u128 = x: int | 0 <= x < U128_LIMIT
  type i64 = x: int | -U63_LIMIT <= x < U63_LIMIT

  // ---------------------------------------------------------------------
  // Lexicographic order
  // ---------------------------------------------------------------------

  /** The order of `[u8]` slices and of `Vec<u8>` index keys: a proper prefix comes first. */
  predicate Less(a: seq<byte>, b: seq<byte>)
    decreases |a|
  {
    b != [] && (a == [] || a[0] < b[0] || (a[0] == b[0] && Less(a[1..], b[1..])))
  }

  /** `a` precedes `b` because of a byte both of them have: neither is a prefix of the other. */
  predicate Diverges(a: seq<byte>, b: seq<byte>)
    decreases |a|
  {
    a != [] && b != [] && (a[0] < b[0] || (a[0] == b[0] && Diverges(a[1..], b[1..])))
  }

  predicate AtMost(a: seq<byte>, b: seq<byte>) {
    a == b || Less(a, b)
  }

  lemma {:induction false} LessIsTotal(a: seq<byte>, b: seq<byte>)
    ensures a == b || Less(a, b) || Less(b, a)
    ensures !(a == b && Less(a, b)) && !(Less(a, b) && Less(b, a))
    decreases |a|
  {
    if a != [] && b != [] {
      LessIsTotal(a[1..], b[1..]);
      assert a == [a[0]] + a[1..] && b == [b[0]] + b[1..];
    }
  }

  lemma {:induction false} LessIsTransitive(a: seq<byte>, b: seq<byte>, c: seq<byte>)
    requires Less(a, b) && Less(b, c)
    ensures Less(a, c)
    decreases |a|
  {
    if a != [] && a[0] == b[0] == c[0] {
      LessIsTransitive(a[1..], b[1..], c[1..]);
    }
  }

  /** A divergence decides the order whatever follows on either side. */
  lemma {:induction false} DivergesExtends(a: seq<byte>, b: seq<byte>, s: seq<byte>, t: seq<byte>)
    requires Diverges(a, b)
    ensures Diverges(a + s, b + t) && Less(a + s, b + t) && Less(a, b)
    ensures !(a <= b) && !(b <= a)
    decreases |a|
  {
    assert (a + s)[1..] == a[1..] + s && (b + t)[1..] == b[1..] + t;
    if a[0] == b[0] {
      DivergesExtends(a[1..], b[1..], s, t);
      assert a == [a[0]] + a[1..] && b == [b[0]] + b[1..];
    }
  }

  lemma {:induction false} DivergesAfter(p: seq<byte>, a: seq<byte>, b: seq<byte>)
    ensures Diverges(p + a, p + b) == Diverges(a, b)
    ensures Less(p + a, p + b) == Less(a, b)
    decreases |p|
  {
    if p == [] {
      assert p + a == a && p + b == b;
    } else {
      assert (p + a)[1..] == p[1..] + a && (p + b)[1..] == p[1..] + b;
      DivergesAfter(p[1..], a, b);
    }
  }

  /** A prefix never follows its extension. */
  lemma {:induction false} PrefixIsAtMost(p: seq<byte>, s: seq<byte>)
    ensures AtMost(p, p + s)
    decreases |p|
  {
    if s == [] {
      assert p + s == p;
    } else if p != [] {
      assert (p + s)[1..] == p[1..] + s;
      PrefixIsAtMost(p[1..], s);
      assert |p[1..]| != |p[1..] + s|;
    }
  }

  /** The keys that carry a prefix are contiguous: nothing between two of them lacks it. */
  lemma {:induction false} PrefixIsConvex(p: seq<byte>, a: seq<byte>, b: seq<byte>)
    requires AtMost(p, a) && AtMost(a, b) && p <= b
    ensures p <= a
    decreases |p|
  {
    if p != [] {
      if a == b { return; }
      assert a != [];
      assert b[0] == p[0];
      assert a[0] == p[0];
      assert p[1..] <= b[1..];
      PrefixIsConvex(p[1..], a[1..], b[1..]);
      assert p == [p[0]] + p[1..] && a == [a[0]] + a[1..];
    }
  }

  // ---------------------------------------------------------------------
  // Fixed-width integers
  // ---------------------------------------------------------------------

  function Pow256(n: nat): (p: nat) ensures p >= 1 {
    if n == 0 then 1 else 256 * Pow256(n - 1)
  }

  lemma Widths()
    ensures Pow256(4) == U32_LIMIT && Pow256(8) == U64_LIMIT && Pow256(16) == U128_LIMIT
  {
    assert Pow256(4) == 256 * Pow256(3) == 65536 * Pow256(2) == U32_LIMIT;
    assert Pow256(8) == 65536 * Pow256(6) == 65536 * 65536 * Pow256(4);
    assert Pow256(12) == 65536 * Pow256(10) == 65536 * 65536 * Pow256(8);
    assert Pow256(16) == 65536 * Pow256(14) == 65536 * 65536 * Pow256(12);
  }

  /** `to_be_bytes`: the `width` low-order bytes of `x`, most significant first. */
  function BigEndian(width: nat, x: nat): (b: seq<byte>)
    ensures |b| == width
  {
    if width == 0 then [] else BigEndian(width - 1, x / 256) + [x % 256]
  }

  /** `from_be_bytes`. */
  function FromBigEndian(b: seq<byte>): nat {
    if b == [] then 0 else 256 * FromBigEndian(b[..|b| - 1]) + b[|b| - 1]
  }

  lemma {:induction false} BigEndianInverts(width: nat, x: nat)
    requires x < Pow256(width)
    ensures FromBigEndian(BigEndian(width, x)) == x
  {
    if width > 0 {
      BigEndianInverts(width - 1, x / 256);
      assert BigEndian(width, x)[..width - 1] == BigEndian(width - 1, x / 256);
    }
  }

  lemma {:induction false} FromBigEndianFits(b: seq<byte>)
    ensures FromBigEndian(b) < Pow256(|b|)
  {
    if b != [] { FromBigEndianFits(b[..|b| - 1]); }
  }

  /** Big-endian bytes sort as the numbers do. */
  lemma {:induction false} BigEndianOrders(width: nat, x: nat, y: nat)
    requires x < y < Pow256(width)
    ensures Diverges(BigEndian(width, x), BigEndian(width, y))
  {
    if x / 256 < y / 256 {
      BigEndianOrders(width - 1, x / 256, y / 256);
      DivergesExtends(BigEndian(width - 1, x / 256), BigEndian(width - 1, y / 256), [x % 256], [y % 256]);
    } else {
      DivergesAfter(BigEndian(width - 1, x / 256), [x % 256], [y % 256]);
    }
  }
}
