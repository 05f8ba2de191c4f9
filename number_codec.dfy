/**
 * The 32- and 64-bit integer codecs. Each value is written in the shortest of
 * a ladder of forms: one byte for small values, a lead byte carrying the high
 * bits followed by one or two low bytes, or a tag followed by the full
 * big-endian image. The narrower C++ integer types are written through these
 * two.
 */
module NumberCodec {
  import opened Bytes
  import opened Wrappers
  import opened Codec

  function Pow2(n: nat): (r: nat)
    ensures r >= 1
  {
    if n == 0 then 1 else 2 * Pow2(n - 1)
  }

  lemma Pow2Values()
    ensures Pow2(8) == 0x100 && Pow2(16) == 0x1_0000
  {
    assert Pow2(4) == 0x10;
    assert Pow2(8) == 0x100;
    assert Pow2(12) == 0x1000;
  }

  /**
   * `LeftShift<T>(int8_t left, uint16_t bit_number)`: a negative `left` is
   * negated as an `int8_t`, shifted, negated back, and the result narrowed to
   * `T`, a signed type of `width` bytes. Only shifts of 8 and 16 occur.
   */
  function LeftShift(left: int8, bitNumber: nat, width: nat): (r: int)
    requires bitNumber <= 16 && width > 0
    ensures InRange(r, width)
  {
    if left < 0 then
      var l := Signed(left * -1, 1);
      Signed(-1 * (l * Pow2(bitNumber)), width)
    else
      Signed(left * Pow2(bitNumber), width)
  }

  /** Whenever the product fits `T` and `left` is not -128, the shift is a multiplication by a power of two. */
  lemma LeftShiftIsMultiplication(left: int8, bitNumber: nat, width: nat)
    requires bitNumber <= 16 && width > 0
    requires left > -128 && InRange(left * Pow2(bitNumber), width)
    ensures LeftShift(left, bitNumber, width) == left * Pow2(bitNumber)
  {
    var p := Pow2(bitNumber);
    if left < 0 {
      var l := Signed(left * -1, 1);
      assert l == -left;
      NegateProduct(left, p);
      assert -1 * (l * p) == left * p;
    }
  }

  lemma NegateProduct(a: int, p: int)
    ensures -1 * (-a * p) == a * p
  {
  }

  /** The shifts the decoders perform: a lead-byte offset in [-8, 7] moved up by 8 bits into an `int16_t`. */
  lemma LeftShift8(k: int)
    requires -8 <= k <= 7
    ensures LeftShift(k, 8, 2) == k * 0x100
  {
    Pow2Values();
    PowerValues();
    LeftShiftIsMultiplication(k, 8, 2);
  }

  /** A lead-byte offset in [-4, 3] moved up by 16 bits into an `int32_t`. */
  lemma LeftShift16(k: int)
    requires -4 <= k <= 3
    ensures LeftShift(k, 16, 4) == k * 0x1_0000
  {
    Pow2Values();
    PowerValues();
    LeftShiftIsMultiplication(k, 16, 4);
  }

  /** The two-byte forms: the lead byte carries `v >> 8`, the next byte the low eight bits. */
  lemma ShortForm(v: int)
    requires -0x800 <= v <= 0x7ff
    ensures -8 <= v / 0x100 <= 7
    ensures LeftShift(v / 0x100, 8, 2) + Unsigned(v, 1) == v
  {
    PowerValues();
    LeftShift8(v / 0x100);
  }

  /** The three-byte forms: the lead byte carries `v >> 16`, the next two bytes the low sixteen bits. */
  lemma MediumForm(v: int)
    requires -0x4_0000 <= v <= 0x3_ffff
    ensures -4 <= v / 0x1_0000 <= 3
    ensures LeftShift(v / 0x1_0000, 16, 4) + FromBE([Unsigned(v / 0x100, 1), Unsigned(v, 1)]) == v
  {
    PowerValues();
    FromBE2(Unsigned(v / 0x100, 1), Unsigned(v, 1));
    ModStep(v, 0x100);
    LeftShift16(v / 0x1_0000);
    assert v == (v / 0x1_0000) * 0x1_0000 + v % 0x1_0000;
  }

  /**
   * For -128 the negation wraps back to -128, so the sign is lost once the
   * shifted value no longer fills `T`: shifting into an `int32_t` by 16 gives
   * +0x800000. No caller passes -128; the codecs pass values in [-8, 7].
   */
  lemma LeftShiftOfMinimum()
    ensures LeftShift(-128, 16, 4) == 0x80_0000 == -(-128 * Pow2(16))
    ensures LeftShift(-128, 8, 2) == -128 * Pow2(8)
  {
    assert Pow2(16) == 0x1_0000 && Pow2(8) == 0x100;
  }

  // ---------------------------------------------------------------------
  // int32

  /** The number of bytes of the int32 form that starts with `code`, or 0 if no form starts with it. */
  function Int32FormLength(code: uint8): nat {
    if 0x80 <= code <= 0xbf then 1
    else if 0xc0 <= code <= 0xcf then 2
    else if 0xd0 <= code <= 0xd7 then 3
    else if code == 0x49 then 5
    else 0
  }

  /** The bytes `Encoder::encode<int32_t>` writes. */
  function Int32Bytes(v: int32): ByteString {
    if -0x10 <= v <= 0x2f then
      [Unsigned(v + 0x90, 1)]
    else if -0x800 <= v <= 0x7ff then
      [Unsigned(0xc8 + v / 0x100, 1), Unsigned(v, 1)]
    else if -0x4_0000 <= v <= 0x3_ffff then
      [Unsigned(0xd4 + v / 0x1_0000, 1), Unsigned(v / 0x100, 1), Unsigned(v, 1)]
    else
      [0x49] + BE(v, 4)
  }

  /**
   * The int32 form is chosen by range, and its lead byte announces its
   * length: [0x80, 0xbf] for one byte, [0xc0, 0xcf] for two, [0xd0, 0xd7]
   * for three, 'I' for the tag and four bytes.
   */
  lemma Int32Forms(v: int32)
    ensures var r := Int32Bytes(v); |r| >= 1 && |r| == Int32FormLength(r[0])
    ensures |Int32Bytes(v)| == 1 <==> -0x10 <= v <= 0x2f
    ensures |Int32Bytes(v)| == 2 <==> -0x800 <= v <= 0x7ff && !(-0x10 <= v <= 0x2f)
    ensures |Int32Bytes(v)| == 3 <==> -0x4_0000 <= v <= 0x3_ffff && !(-0x800 <= v <= 0x7ff)
    ensures |Int32Bytes(v)| == 5 <==> !(-0x4_0000 <= v <= 0x3_ffff)
  {
    PowerValues();
  }

  /** What `Decoder::decode<int32_t>` yields on the input `s`. */
  function Int32Decoding(s: ByteString): Decoded<int> {
    if s == [] then Decoded(None, 0) else Int32Form(s[0], s[1..])
  }

  /** The int32 form led by `code`, read from the bytes `t` that follow it; `consumed` counts the lead byte. */
  function Int32Form(code: uint8, t: ByteString): Decoded<int> {
    var c: int := code;
    if 0x80 <= c <= 0xbf then Decoded(Some(c - 0x90), 1)
    else if 0xc0 <= c <= 0xcf then
      if |t| < 1 then Decoded(None, 1)
      else Decoded(Some(LeftShift(c - 0xc8, 8, 2) + FromBE(t[..1])), 2)
    else if 0xd0 <= c <= 0xd7 then
      if |t| < 2 then Decoded(None, 1)
      else Decoded(Some(LeftShift(c - 0xd4, 16, 4) + FromBE(t[..2])), 3)
    else if c == 0x49 then
      if |t| < 4 then Decoded(None, 1)
      else Decoded(Some(Signed(FromBE(t[..4]), 4)), 5)
    else Decoded(None, 1)
  }

  /**
   * `decode<int32_t>` succeeds exactly when the lead byte starts a form
   * and the whole form is present, then consumes that form and yields an
   * int32 value; otherwise it yields null, having consumed the lead byte
   * if there was one.
   */
  lemma Int32DecodingShape(s: ByteString)
    ensures var r := Int32Decoding(s); r.consumed <= |s|
    ensures var r := Int32Decoding(s);
      r.value.Some? <==> |s| >= 1 && Int32FormLength(s[0]) > 0 && |s| >= Int32FormLength(s[0])
    ensures var r := Int32Decoding(s);
      r.value.Some? ==> IsInt32(r.value.value) && r.consumed == Int32FormLength(s[0])
    ensures var r := Int32Decoding(s); r.value.None? ==> r.consumed == if s == [] then 0 else 1
  {
    PowerValues();
    if s != [] {
      var code: int := s[0];
      if 0xc0 <= code <= 0xcf || 0xf0 <= code <= 0xff {
        LeftShift8(code - (if code <= 0xcf then 0xc8 else 0xf8));
      } else if 0xd0 <= code <= 0xd7 || 0x38 <= code <= 0x3f {
        LeftShift16(code - (if code <= 0x3f then 0x3c else 0xd4));
      }
    }
  }

  /** Every int32 value survives encoding and decoding, whatever follows it, and decoding stops at its end. */
  lemma Int32RoundTrip(v: int32, rest: ByteString)
    ensures Int32Decoding(Int32Bytes(v) + rest) == Decoded(Some(v), |Int32Bytes(v)|)
  {
    if -0x4_0000 <= v <= 0x3_ffff {
      Int32RoundTripCompact(v, rest);
    } else {
      var s := Int32Bytes(v) + rest;
      assert Int32Bytes(v) == [0x49] + BE(v, 4);
      assert s[1..][..4] == BE(v, 4);
      PowerValues();
      SignedFromBE(v, 4);
    }
  }

  lemma Int32RoundTripCompact(v: int32, rest: ByteString)
    requires -0x4_0000 <= v <= 0x3_ffff
    ensures Int32Decoding(Int32Bytes(v) + rest) == Decoded(Some(v), |Int32Bytes(v)|)
  {
    if -0x10 <= v <= 0x2f {
      assert Int32Bytes(v) == [v + 0x90];
    } else if -0x800 <= v <= 0x7ff {
      Int32ShortRoundTrip(v, rest);
    } else {
      Int32MediumRoundTrip(v, rest);
    }
  }

  lemma Int32ShortRoundTrip(v: int32, rest: ByteString)
    requires -0x800 <= v <= 0x7ff && !(-0x10 <= v <= 0x2f)
    ensures Int32Decoding(Int32Bytes(v) + rest) == Decoded(Some(v), |Int32Bytes(v)|)
  {
    var b := [Unsigned(0xc8 + v / 0x100, 1), Unsigned(v, 1)];
    assert Int32Bytes(v) == b;
    ShortForm(v);
    var s := b + rest;
    assert s[1..][..1] == [Unsigned(v, 1)];
    FromBE1(Unsigned(v, 1));
    assert Int32Form(s[0], s[1..]) == Decoded(Some(v), 2);
  }

  lemma Int32MediumRoundTrip(v: int32, rest: ByteString)
    requires -0x4_0000 <= v <= 0x3_ffff && !(-0x800 <= v <= 0x7ff)
    ensures Int32Decoding(Int32Bytes(v) + rest) == Decoded(Some(v), |Int32Bytes(v)|)
  {
    var b := [Unsigned(0xd4 + v / 0x1_0000, 1), Unsigned(v / 0x100, 1), Unsigned(v, 1)];
    assert Int32Bytes(v) == b;
    MediumForm(v);
    var s := b + rest;
    assert s[1..][..2] == [Unsigned(v / 0x100, 1), Unsigned(v, 1)];
    assert Int32Form(s[0], s[1..]) == Decoded(Some(v), 3);
  }

  /** `Encoder::encode<int32_t>`: appends the int32 form of `v`; never fails. */
  method EncodeInt32(e: Encoder, v: int32) returns (ok: bool)
    modifies e.writer
    ensures e.writer.data == old(e.writer.data) + Int32Bytes(v)
    ensures ok
  {
    ghost var out := e.writer.data;
    if -0x10 <= v <= 0x2f {
      e.writer.WriteByte(v + 0x90);
      return true;
    }
    if -0x800 <= v <= 0x7ff {
      e.writer.WriteByte(0xc8 + v / 0x100);
      e.writer.WriteByte(v);
      assert e.writer.data == out + [Unsigned(0xc8 + v / 0x100, 1), Unsigned(v, 1)];
      return true;
    }
    if -0x4_0000 <= v <= 0x3_ffff {
      e.writer.WriteByte(0xd4 + v / 0x1_0000);
      e.writer.WriteByte(v / 0x100);
      e.writer.WriteByte(v);
      assert e.writer.data == out + [Unsigned(0xd4 + v / 0x1_0000, 1), Unsigned(v / 0x100, 1), Unsigned(v, 1)];
      return true;
    }
    e.writer.WriteByte(0x49);
    e.writer.WriteBE(v, 4);
    assert e.writer.data == out + ([0x49] + BE(v, 4));
    return true;
  }

  /** `Decoder::decode<int32_t>`: reads one int32 form, or yields null on an unknown lead byte or short input. */
  method DecodeInt32(d: Decoder) returns (r: Option<int>)
    requires d.Valid()
    modifies d.reader
    ensures d.Valid()
    ensures r == Int32Decoding(old(d.reader.Rest())).value
    ensures d.reader.pos == old(d.reader.pos) + Int32Decoding(old(d.reader.Rest())).consumed
  {
    ghost var s := d.reader.Rest();
    var _, c := d.reader.ReadBE(1);
    var code: int := c;
    assert s != [] ==> code == s[0] && d.reader.Rest() == s[1..] by {
      if s != [] { FromBE1(s[0]); assert s[..1] == [s[0]]; }
    }
    if 0x80 <= code <= 0xbf {
      return Some(code - 0x90);
    }
    if 0xc0 <= code <= 0xcf {
      if d.reader.ByteAvailable() < 1 {
        return None;
      }
      var _, b0 := d.reader.ReadBE(1);
      return Some(LeftShift(code - 0xc8, 8, 2) + b0);
    }
    if 0xd0 <= code <= 0xd7 {
      if d.reader.ByteAvailable() < 2 {
        return None;
      }
      var _, b := d.reader.ReadBE(2);
      return Some(LeftShift(code - 0xd4, 16, 4) + b);
    }
    if code == 0x49 {
      if d.reader.ByteAvailable() < 4 {
        return None;
      }
      var _, x := d.reader.ReadSignedBE(4);
      return Some(x);
    }
    return None;
  }

  // ---------------------------------------------------------------------
  // int64

  /** The number of bytes of the int64 form that starts with `code`, or 0 if no form starts with it. */
  function Int64FormLength(code: uint8): nat {
    if 0xd8 <= code <= 0xef then 1
    else if 0xf0 <= code <= 0xff then 2
    else if 0x38 <= code <= 0x3f then 3
    else if code == 0x59 then 5
    else if code == 0x4c then 9
    else 0
  }

  /** The bytes `Encoder::encode<int64_t>` writes. */
  function Int64Bytes(v: int64): ByteString {
    if -0x08 <= v <= 0x0f then
      [Unsigned(v + 0xe0, 1)]
    else if -0x800 <= v <= 0x7ff then
      [Unsigned(0xf8 + v / 0x100, 1), Unsigned(v, 1)]
    else if -0x4_0000 <= v <= 0x3_ffff then
      [Unsigned(0x3c + v / 0x1_0000, 1), Unsigned(v / 0x100, 1), Unsigned(v, 1)]
    else if IsInt32(v) then
      [0x59] + BE(v, 4)
    else
      [0x4c] + BE(v, 8)
  }

  /**
   * The int64 form is chosen by range, and its lead byte announces its
   * length: [0xd8, 0xef] for one byte, [0xf0, 0xff] for two, [0x38, 0x3f]
   * for three, 0x59 for an int32 image and 'L' for the full eight bytes.
   */
  lemma Int64Forms(v: int64)
    ensures var r := Int64Bytes(v); |r| >= 1 && |r| == Int64FormLength(r[0])
    ensures |Int64Bytes(v)| == 1 <==> -0x08 <= v <= 0x0f
    ensures |Int64Bytes(v)| == 2 <==> -0x800 <= v <= 0x7ff && !(-0x08 <= v <= 0x0f)
    ensures |Int64Bytes(v)| == 3 <==> -0x4_0000 <= v <= 0x3_ffff && !(-0x800 <= v <= 0x7ff)
    ensures |Int64Bytes(v)| == 5 <==> IsInt32(v) && !(-0x4_0000 <= v <= 0x3_ffff)
    ensures |Int64Bytes(v)| == 9 <==> !IsInt32(v)
  {
    PowerValues();
  }

  /** What `Decoder::decode<int64_t>` yields on the input `s`. */
  function Int64Decoding(s: ByteString): Decoded<int> {
    if s == [] then Decoded(None, 0) else Int64Form(s[0], s[1..])
  }

  /** The int64 form led by `code`, read from the bytes `t` that follow it; `consumed` counts the lead byte. */
  function Int64Form(code: uint8, t: ByteString): Decoded<int> {
    var c: int := code;
    if 0xd8 <= c <= 0xef then Decoded(Some(c - 0xe0), 1)
    else if 0xf0 <= c <= 0xff then
      if |t| < 1 then Decoded(None, 1)
      else Decoded(Some(LeftShift(c - 0xf8, 8, 2) + FromBE(t[..1])), 2)
    else if 0x38 <= c <= 0x3f then
      if |t| < 2 then Decoded(None, 1)
      else Decoded(Some(LeftShift(c - 0x3c, 16, 4) + FromBE(t[..2])), 3)
    else if c == 0x59 then
      if |t| < 4 then Decoded(None, 1)
      else Decoded(Some(Signed(FromBE(t[..4]), 4)), 5)
    else if c == 0x4c then
      if |t| < 8 then Decoded(None, 1)
      else Decoded(Some(Signed(FromBE(t[..8]), 8)), 9)
    else Decoded(None, 1)
  }

  /**
   * `decode<int64_t>` succeeds exactly when the lead byte starts a form
   * and the whole form is present, then consumes that form and yields an
   * int64 value; otherwise it yields null, having consumed the lead byte
   * if there was one.
   */
  lemma Int64DecodingShape(s: ByteString)
    ensures var r := Int64Decoding(s); r.consumed <= |s|
    ensures var r := Int64Decoding(s);
      r.value.Some? <==> |s| >= 1 && Int64FormLength(s[0]) > 0 && |s| >= Int64FormLength(s[0])
    ensures var r := Int64Decoding(s);
      r.value.Some? ==> IsInt64(r.value.value) && r.consumed == Int64FormLength(s[0])
    ensures var r := Int64Decoding(s); r.value.None? ==> r.consumed == if s == [] then 0 else 1
  {
    PowerValues();
    if s != [] {
      var code: int := s[0];
      if 0xc0 <= code <= 0xcf || 0xf0 <= code <= 0xff {
        LeftShift8(code - (if code <= 0xcf then 0xc8 else 0xf8));
      } else if 0xd0 <= code <= 0xd7 || 0x38 <= code <= 0x3f {
        LeftShift16(code - (if code <= 0x3f then 0x3c else 0xd4));
      }
    }
  }

  /** Every int64 value survives encoding and decoding, whatever follows it, and decoding stops at its end. */
  lemma Int64RoundTrip(v: int64, rest: ByteString)
    ensures Int64Decoding(Int64Bytes(v) + rest) == Decoded(Some(v), |Int64Bytes(v)|)
  {
    if -0x4_0000 <= v <= 0x3_ffff {
      Int64RoundTripCompact(v, rest);
    } else {
      Int64RoundTripWide(v, rest);
    }
  }

  lemma Int64RoundTripWide(v: int64, rest: ByteString)
    requires !(-0x4_0000 <= v <= 0x3_ffff)
    ensures Int64Decoding(Int64Bytes(v) + rest) == Decoded(Some(v), |Int64Bytes(v)|)
  {
    PowerValues();
    var n := if IsInt32(v) then 4 else 8;
    var b := [if n == 4 then 0x59 else 0x4c] + BE(v, n);
    assert Int64Bytes(v) == b;
    var s := b + rest;
    assert s[1..][..n] == BE(v, n);
    SignedFromBE(v, n);
    assert Int64Form(s[0], s[1..]) == Decoded(Some(v), n + 1);
  }

  lemma Int64RoundTripCompact(v: int64, rest: ByteString)
    requires -0x4_0000 <= v <= 0x3_ffff
    ensures Int64Decoding(Int64Bytes(v) + rest) == Decoded(Some(v), |Int64Bytes(v)|)
  {
    if -0x08 <= v <= 0x0f {
      assert Int64Bytes(v) == [v + 0xe0];
    } else if -0x800 <= v <= 0x7ff {
      Int64ShortRoundTrip(v, rest);
    } else {
      Int64MediumRoundTrip(v, rest);
    }
  }

  lemma Int64ShortRoundTrip(v: int64, rest: ByteString)
    requires -0x800 <= v <= 0x7ff && !(-0x08 <= v <= 0x0f)
    ensures Int64Decoding(Int64Bytes(v) + rest) == Decoded(Some(v), |Int64Bytes(v)|)
  {
    var b := [Unsigned(0xf8 + v / 0x100, 1), Unsigned(v, 1)];
    assert Int64Bytes(v) == b;
    ShortForm(v);
    var s := b + rest;
    assert s[1..][..1] == [Unsigned(v, 1)];
    FromBE1(Unsigned(v, 1));
    assert Int64Form(s[0], s[1..]) == Decoded(Some(v), 2);
  }

  lemma Int64MediumRoundTrip(v: int64, rest: ByteString)
    requires -0x4_0000 <= v <= 0x3_ffff && !(-0x800 <= v <= 0x7ff)
    ensures Int64Decoding(Int64Bytes(v) + rest) == Decoded(Some(v), |Int64Bytes(v)|)
  {
    var b := [Unsigned(0x3c + v / 0x1_0000, 1), Unsigned(v / 0x100, 1), Unsigned(v, 1)];
    assert Int64Bytes(v) == b;
    MediumForm(v);
    var s := b + rest;
    assert s[1..][..2] == [Unsigned(v / 0x100, 1), Unsigned(v, 1)];
    assert Int64Form(s[0], s[1..]) == Decoded(Some(v), 3);
  }

  /** `Encoder::encode<int64_t>`: appends the int64 form of `v`; never fails. */
  method EncodeInt64(e: Encoder, v: int64) returns (ok: bool)
    modifies e.writer
    ensures e.writer.data == old(e.writer.data) + Int64Bytes(v)
    ensures ok
  {
    ghost var out := e.writer.data;
    if -0x08 <= v <= 0x0f {
      e.writer.WriteByte(v + 0xe0);
      return true;
    }
    if -0x800 <= v <= 0x7ff {
      e.writer.WriteByte(0xf8 + v / 0x100);
      e.writer.WriteByte(v);
      assert e.writer.data == out + [Unsigned(0xf8 + v / 0x100, 1), Unsigned(v, 1)];
      return true;
    }
    if -0x4_0000 <= v <= 0x3_ffff {
      e.writer.WriteByte(0x3c + v / 0x1_0000);
      e.writer.WriteByte(v / 0x100);
      e.writer.WriteByte(v);
      assert e.writer.data == out + [Unsigned(0x3c + v / 0x1_0000, 1), Unsigned(v / 0x100, 1), Unsigned(v, 1)];
      return true;
    }
    if -0x8000_0000 <= v <= 0x7fff_ffff {
      e.writer.WriteByte(0x59);
      e.writer.WriteBE(v, 4);
      assert e.writer.data == out + ([0x59] + BE(v, 4));
      return true;
    }
    e.writer.WriteByte(0x4c);
    e.writer.WriteBE(v, 8);
    assert e.writer.data == out + ([0x4c] + BE(v, 8));
    return true;
  }

  /** `Decoder::decode<int64_t>`: reads one int64 form, or yields null on an unknown lead byte or short input. */
  method DecodeInt64(d: Decoder) returns (r: Option<int>)
    requires d.Valid()
    modifies d.reader
    ensures d.Valid()
    ensures r == Int64Decoding(old(d.reader.Rest())).value
    ensures d.reader.pos == old(d.reader.pos) + Int64Decoding(old(d.reader.Rest())).consumed
  {
    ghost var s := d.reader.Rest();
    var _, c := d.reader.ReadBE(1);
    var code: int := c;
    assert s != [] ==> code == s[0] && d.reader.Rest() == s[1..] by {
      if s != [] { FromBE1(s[0]); assert s[..1] == [s[0]]; }
    }
    if 0xd8 <= code <= 0xef {
      return Some(code - 0xe0);
    }
    if 0xf0 <= code <= 0xff {
      if d.reader.ByteAvailable() < 1 {
        return None;
      }
      var _, b0 := d.reader.ReadBE(1);
      return Some(LeftShift(code - 0xf8, 8, 2) + b0);
    }
    if 0x38 <= code <= 0x3f {
      if d.reader.ByteAvailable() < 2 {
        return None;
      }
      var _, b := d.reader.ReadBE(2);
      return Some(LeftShift(code - 0x3c, 16, 4) + b);
    }
    if code == 0x59 {
      if d.reader.ByteAvailable() < 4 {
        return None;
      }
      var _, x := d.reader.ReadSignedBE(4);
      return Some(x);
    }
    if code == 0x4c {
      if d.reader.ByteAvailable() < 8 {
        return None;
      }
      var _, x := d.reader.ReadSignedBE(8);
      return Some(x);
    }
    return None;
  }

  // ---------------------------------------------------------------------
  // Narrower types, written through the int32 and int64 encoders.

  method EncodeInt8(e: Encoder, v: int8) returns (ok: bool)
    modifies e.writer
    ensures e.writer.data == old(e.writer.data) + Int32Bytes(v)
    ensures ok
  {
    ok := EncodeInt32(e, v);
  }

  method EncodeInt16(e: Encoder, v: int16) returns (ok: bool)
    modifies e.writer
    ensures e.writer.data == old(e.writer.data) + Int32Bytes(v)
    ensures ok
  {
    ok := EncodeInt32(e, v);
  }

  method EncodeUint8(e: Encoder, v: uint8) returns (ok: bool)
    modifies e.writer
    ensures e.writer.data == old(e.writer.data) + Int32Bytes(v)
    ensures ok
  {
    ok := EncodeInt32(e, v);
  }

  method EncodeUint16(e: Encoder, v: uint16) returns (ok: bool)
    modifies e.writer
    ensures e.writer.data == old(e.writer.data) + Int32Bytes(v)
    ensures ok
  {
    ok := EncodeInt32(e, v);
  }

  method EncodeUint32(e: Encoder, v: uint32) returns (ok: bool)
    modifies e.writer
    ensures e.writer.data == old(e.writer.data) + Int64Bytes(v)
    ensures ok
  {
    ok := EncodeInt64(e, v);
  }

  /** Samples of the form ladder: 10 is one byte, 0x800 needs the three-byte form, -1 as a long is 0xdf. */
  lemma IntegerFormExamples()
    ensures Int32Bytes(10) == [0x9a]
    ensures Int32Bytes(-16) == [0x80] && Int32Bytes(47) == [0xbf]
    ensures Int32Bytes(-2048) == [0xc0, 0x00]
    ensures Int32Bytes(0x800) == [0xd4, 0x08, 0x00]
    ensures Int64Bytes(-1) == [0xdf]
    ensures Int64Bytes(0x4_0000) == [0x59, 0x00, 0x04, 0x00, 0x00]
  {
  }
}
