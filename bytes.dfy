/**
 * Unsigned bytes, fixed-width two's-complement integers and their big- and
 * little-endian byte images. Widths are counted in bytes: 1, 2, 4 and 8 stand
 * for the C++ types `int8_t`/`uint8_t` up to `int64_t`/`uint64_t`.
 */
module Bytes {
  type uint8 = x: int | 0 <= x < 256
  type uint16 = x: int | 0 <= x < 0x1_0000

  type int8 = x: int | -0x80 <= x < 0x80
  type int16 = x: int | -0x8000 <= x < 0x8000
  type uint32 = x: int | 0 <= x < 0x1_0000_0000
  type int32 = x: int | -0x8000_0000 <= x < 0x8000_0000
  type int64 = x: int | -0x8000_0000_0000_0000 <= x < 0x8000_0000_0000_0000

  /** A `std::string` or byte vector as it sits in memory. */
  type ByteString = seq<uint8>

  function Pow256(width: nat): (r: int)
    ensures r >= 1
  {
    if width == 0 then 1 else 256 * Pow256(width - 1)
  }

  /** Half the range of a `width`-byte integer: the bound of its signed values. */
  function Half(width: nat): (r: int)
    requires width > 0
    ensures r >= 1 && Pow256(width) == 2 * r
  {
    128 * Pow256(width - 1)
  }

  /** The value a conversion to a `width`-byte unsigned type keeps (C++ conversions are modular). */
  function Unsigned(v: int, width: nat): (r: nat)
    ensures r < Pow256(width)
    ensures 0 <= v < Pow256(width) ==> r == v
  {
    ModSmall(v, Pow256(width));
    v % Pow256(width)
  }

  /** The value a conversion to a `width`-byte signed type keeps (two's complement). */
  function Signed(v: int, width: nat): (r: int)
    requires width > 0
    ensures -Half(width) <= r < Half(width)
    ensures -Half(width) <= v < Half(width) ==> r == v
  {
    var u := Unsigned(v, width);
    UnsignedOfNegative(v, width);
    if u >= Half(width) then u - Pow256(width) else u
  }

  /** The bounds of the widths the codec uses. */
  lemma PowerValues()
    ensures Pow256(1) == 0x100 && Pow256(2) == 0x1_0000 && Pow256(4) == 0x1_0000_0000
    ensures Pow256(8) == 0x1_0000_0000_0000_0000
    ensures Half(1) == 0x80 && Half(2) == 0x8000 && Half(4) == 0x8000_0000
    ensures Half(8) == 0x8000_0000_0000_0000
  {
    assert Pow256(3) == 0x100_0000;
    assert Pow256(5) == 0x100_0000_0000;
    assert Pow256(6) == 0x1_0000_0000_0000;
    assert Pow256(7) == 0x100_0000_0000_0000;
  }

  predicate InRange(v: int, width: nat)
    requires width > 0
  {
    -Half(width) <= v < Half(width)
  }

  predicate IsInt32(v: int) { -0x8000_0000 <= v < 0x8000_0000 }
  predicate IsInt64(v: int) { -0x8000_0000_0000_0000 <= v < 0x8000_0000_0000_0000 }

  /** Big-endian image of the low `width` bytes of `v`. */
  function BE(v: int, width: nat): (r: seq<uint8>)
    ensures |r| == width
    decreases width
  {
    if width == 0 then [] else BE(v / 256, width - 1) + [v % 256]
  }

  /** Little-endian image of the low `width` bytes of `v`. */
  function LE(v: int, width: nat): (r: seq<uint8>)
    ensures |r| == width
    decreases width
  {
    if width == 0 then [] else [v % 256] + LE(v / 256, width - 1)
  }

  /** The unsigned value of a big-endian byte sequence. */
  function FromBE(s: seq<uint8>): (r: nat)
    ensures r < Pow256(|s|)
  {
    if s == [] then 0 else FromBE(s[..|s| - 1]) * 256 + s[|s| - 1]
  }

  function Reverse<T>(s: seq<T>): (r: seq<T>)
    ensures |r| == |s|
  {
    if s == [] then [] else [s[|s| - 1]] + Reverse(s[..|s| - 1])
  }

  // ---------------------------------------------------------------------
  // Arithmetic facts about Euclidean division (Dafny's `/` and `%`).

  lemma DivModUnique(v: int, m: int, q: int, r: int)
    requires m > 0 && v == q * m + r && 0 <= r < m
    ensures v / m == q && v % m == r
  {
    var q', r' := v / m, v % m;
    assert v == q' * m + r';
    assert (q - q') * m == r' - r;
    BoundedMultiple(q - q', m);
  }

  /** The only multiple of `m` strictly between `-m` and `m` is zero. */
  lemma BoundedMultiple(a: int, m: int)
    requires m > 0 && -m < a * m < m
    ensures a == 0
  {
    if a > 0 {
      MulAtLeast(a, m);
      assert false;
    } else if a < 0 {
      MulAtLeast(-a, m);
      assert false;
    }
  }

  lemma {:induction false} MulAtLeast(a: int, m: int)
    requires a >= 1 && m > 0
    ensures a * m >= m
    decreases a
  {
    if a > 1 {
      MulAtLeast(a - 1, m);
      assert a * m == (a - 1) * m + m;
    }
  }

  lemma ModSmall(v: int, m: int)
    requires m > 0
    ensures 0 <= v < m ==> v % m == v
  {
    if 0 <= v < m {
      DivModUnique(v, m, 0, v);
    }
  }

  lemma UnsignedOfNegative(v: int, width: nat)
    ensures -Pow256(width) <= v < 0 ==> Unsigned(v, width) == v + Pow256(width)
  {
    if -Pow256(width) <= v < 0 {
      ModOfNegative(v, Pow256(width));
    }
  }

  lemma ModOfNegative(v: int, m: int)
    requires m > 0 && -m <= v < 0
    ensures v % m == v + m
  {
    DivModUnique(v, m, -1, v + m);
  }

  /** Dropping the last byte of a Euclidean expansion: the step that `BE` and `FromBE` take. */
  lemma ModStep(v: int, p: nat)
    requires p > 0
    ensures (v / 256) % p * 256 + v % 256 == v % (256 * p)
  {
    var q := v / 256;
    var r := (q % p) * 256 + v % 256;
    assert v == 256 * q + v % 256;
    assert q == p * (q / p) + q % p;
    assert 256 * q == (256 * p) * (q / p) + 256 * (q % p);
    DivModUnique(v, 256 * p, q / p, r);
  }

  // ---------------------------------------------------------------------
  // Byte images.

  /** Reading back a big-endian image gives the value modulo the width: the writer/reader round trip. */
  lemma {:induction false} FromBEOfBE(v: int, width: nat)
    ensures FromBE(BE(v, width)) == Unsigned(v, width)
    decreases width
  {
    if width == 0 {
      assert v % 1 == 0 by { DivModUnique(v, 1, v, 0); }
    } else {
      var b := BE(v, width);
      assert b[..width - 1] == BE(v / 256, width - 1);
      FromBEOfBE(v / 256, width - 1);
      ModStep(v, Pow256(width - 1));
    }
  }

  /** Two byte sequences of the same length with the same value are equal. */
  lemma {:induction false} FromBEInjective(a: seq<uint8>, b: seq<uint8>)
    requires |a| == |b| && FromBE(a) == FromBE(b)
    ensures a == b
  {
    if a != [] {
      var n := |a| - 1;
      DivModUnique(FromBE(a), 256, FromBE(a[..n]), a[n]);
      DivModUnique(FromBE(b), 256, FromBE(b[..n]), b[n]);
      FromBEInjective(a[..n], b[..n]);
      assert a == a[..n] + [a[n]] && b == b[..n] + [b[n]];
    }
  }

  /** Values equal modulo the width have the same image: signed and unsigned types write the same bytes. */
  lemma BEOfUnsigned(v: int, width: nat)
    ensures BE(v, width) == BE(Unsigned(v, width), width)
  {
    FromBEOfBE(v, width);
    FromBEOfBE(Unsigned(v, width), width);
    FromBEInjective(BE(v, width), BE(Unsigned(v, width), width));
  }

  /** Decoding a big-endian image as a signed integer of the same width gives back any in-range value. */
  lemma SignedFromBE(v: int, width: nat)
    requires width > 0 && InRange(v, width)
    ensures Signed(FromBE(BE(v, width)), width) == v
  {
    FromBEOfBE(v, width);
    var u := Unsigned(v, width);
    if v < 0 {
      ModOfNegative(v, Pow256(width));
    }
    assert Unsigned(u, width) == u;
  }

  /** The little-endian image is the big-endian one reversed. */
  lemma {:induction false} LEIsReversedBE(v: int, width: nat)
    ensures LE(v, width) == Reverse(BE(v, width))
    decreases width
  {
    if width > 0 {
      LEIsReversedBE(v / 256, width - 1);
      var b := BE(v, width);
      assert b[..width - 1] == BE(v / 256, width - 1);
    }
  }

  /** The value of a one-byte big-endian sequence. */
  lemma FromBE1(a: uint8)
    ensures FromBE([a]) == a
  {
    assert [a][..0] == [];
  }

  /** The value of a two-byte big-endian sequence. */
  lemma FromBE2(a: uint8, b: uint8)
    ensures FromBE([a, b]) == a * 256 + b
  {
    assert [a, b][..1] == [a];
    assert [a][..0] == [];
  }

  /** Concatenation is associative. */
  lemma AppendAssoc<T>(a: seq<T>, b: seq<T>, c: seq<T>)
    ensures (a + b) + c == a + (b + c)
  {
  }

  /** The two parts of a concatenation are recovered by slicing at the first part's length. */
  lemma AppendParts<T>(a: seq<T>, b: seq<T>)
    ensures (a + b)[..|a|] == a && (a + b)[|a|..] == b
  {
  }

  /** A sequence is its prefix of `k` elements followed by the rest. */
  lemma SplitAt<T>(s: seq<T>, k: nat)
    requires k <= |s|
    ensures s[..k] + s[k..] == s
  {
  }

  /** The last `m` elements of a concatenation are the last `m` of its second part. */
  lemma SuffixOfAppend<T>(a: seq<T>, b: seq<T>, m: nat)
    requires m <= |b|
    ensures (a + b)[|a + b| - m..] == b[|b| - m..]
  {
  }

  /** Cutting the suffix from `a` at `b - a` cuts the whole sequence at `b`. */
  lemma SuffixSplit<T>(s: seq<T>, a: nat, b: nat)
    requires a <= b <= |s|
    ensures s[a..][..b - a] == s[a..b] && s[a..][b - a..] == s[b..]
  {
  }
}
