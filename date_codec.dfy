/**
 * The date codec. A date is a `std::chrono` duration since the epoch; on the
 * wire it is either 0x4b and a 32-bit count of minutes or 0x4a and a 64-bit
 * count of milliseconds. Every duration type the codec accepts has a period
 * that is a whole number of milliseconds, so a duration is modelled as a
 * count together with its unit.
 */
module DateCodec {
  import opened Bytes
  import opened Wrappers
  import opened Codec

  /** The `std::chrono` duration types with codec specialisations. */
  datatype Unit = Milliseconds | Seconds | Minutes | Hours | Days | Weeks | Months | Years

  /** The period of a unit in milliseconds (months and years are the Gregorian averages). */
  function UnitMs(u: Unit): (r: nat)
    ensures r >= 1
  {
    match u
    case Milliseconds => 1
    case Seconds => 1000
    case Minutes => 60000
    case Hours => 3600000
    case Days => 86400000
    case Weeks => 604800000
    case Months => 2629746000
    case Years => 31556952000
  }

  const MINUTE_MS: nat := 60000

  /** C++ integer division, which truncates toward zero. */
  function TruncDiv(a: int, b: int): int
    requires b > 0
  {
    if a >= 0 then a / b else -((-a) / b)
  }

  /** Truncating division leaves less than one divisor's worth, on the side of zero. */
  lemma TruncDivBounds(a: int, b: int)
    requires b > 0
    ensures a >= 0 ==> 0 <= a - TruncDiv(a, b) * b < b
    ensures a < 0 ==> -b < a - TruncDiv(a, b) * b <= 0
    ensures (TruncDiv(a, b) * b == a) <==> a % b == 0
  {
    if a < 0 {
      assert (-a) % b == 0 <==> a % b == 0 by {
        DivModUnique(a, b, -((-a) / b) - (if (-a) % b == 0 then 0 else 1), if (-a) % b == 0 then 0 else b - (-a) % b);
      }
    }
  }

  /** Exact division is undone by multiplication. */
  lemma TruncDivExact(q: int, b: int)
    requires b > 0
    ensures TruncDiv(q * b, b) == q
  {
    if q >= 0 {
      DivModUnique(q * b, b, q, 0);
    } else {
      DivModUnique(-(q * b), b, -q, 0);
    }
  }

  /**
   * `std::chrono::duration_cast`: the count converted from one unit to
   * another, truncated toward zero when the target unit is coarser.
   */
  function DurationCast(count: int, from: Unit, to: Unit): int {
    TruncDiv(count * UnitMs(from), UnitMs(to))
  }

  /** Casting to milliseconds is exact, and casting back returns the count. */
  lemma CastThroughMilliseconds(count: int, u: Unit)
    ensures DurationCast(count, u, Milliseconds) == count * UnitMs(u)
    ensures DurationCast(DurationCast(count, u, Milliseconds), Milliseconds, u) == count
  {
    TruncDivExact(count * UnitMs(u), 1);
    TruncDivExact(count, UnitMs(u));
  }

  // ---------------------------------------------------------------------
  // Encoding

  /**
   * `writeDate<T>` (and `encode<minutes>`, `encode<milliseconds>`, which
   * make the same choice): the minutes form when the value is a whole number
   * of minutes, written as `int32_t`, otherwise the milliseconds form.
   */
  function DateBytes(u: Unit, count: int): ByteString {
    var ms := DurationCast(count, u, Milliseconds);
    var min := DurationCast(count, u, Minutes);
    if min * MINUTE_MS == ms then [0x4b] + BE(min, 4)
    else [0x4a] + BE(ms, 8)
  }

  /** The minutes form is taken only when the minutes also fit in 32 bits. */
  function DateBytesIntended(u: Unit, count: int): ByteString {
    var ms := DurationCast(count, u, Milliseconds);
    var min := DurationCast(count, u, Minutes);
    if min * MINUTE_MS == ms && IsInt32(min) then [0x4b] + BE(min, 4)
    else [0x4a] + BE(ms, 8)
  }

  /** The written form: the minutes form exactly for whole minutes, five or nine bytes. */
  lemma DateForms(u: Unit, count: int)
    ensures DateBytes(u, count)[0] == 0x4b <==> (count * UnitMs(u)) % MINUTE_MS == 0
    ensures |DateBytes(u, count)| == if DateBytes(u, count)[0] == 0x4b then 5 else 9
    ensures u == Minutes || u == Hours || u == Days || u == Weeks ==> DateBytes(u, count)[0] == 0x4b
  {
    CastThroughMilliseconds(count, u);
    TruncDivBounds(count * UnitMs(u), MINUTE_MS);
    if u == Hours || u == Days || u == Weeks {
      var k := UnitMs(u) / MINUTE_MS;
      assert count * UnitMs(u) == (count * k) * MINUTE_MS;
      DivModUnique(count * UnitMs(u), MINUTE_MS, count * k, 0);
    } else if u == Minutes {
      DivModUnique(count * UnitMs(u), MINUTE_MS, count, 0);
    }
  }

  /** The two encodings agree unless a whole number of minutes does not fit in 32 bits. */
  lemma DateBytesAgree(u: Unit, count: int)
    ensures DateBytes(u, count) != DateBytesIntended(u, count) <==>
      (var min := DurationCast(count, u, Minutes);
       min * MINUTE_MS == count * UnitMs(u) && !IsInt32(min))
  {
    CastThroughMilliseconds(count, u);
    var min := DurationCast(count, u, Minutes);
    var ms := count * UnitMs(u);
    if min * MINUTE_MS == ms && !IsInt32(min) {
      assert DateBytes(u, count)[0] != DateBytesIntended(u, count)[0];
    }
  }

  // ---------------------------------------------------------------------
  // Decoding

  /**
   * `readDate<T>` on the input `s`: the minutes or milliseconds read are cast
   * to the unit asked for. A missing lead byte reads as 0; an unknown lead
   * byte or too few bytes after it give null. No error is recorded.
   */
  function DateDecoding(u: Unit, s: ByteString): Decoded<int> {
    if s == [] then Decoded(None, 0)
    else if s[0] == 0x4b then
      if |s| - 1 < 4 then Decoded(None, 1)
      else Decoded(Some(DurationCast(Signed(FromBE(s[1..5]), 4), Minutes, u)), 5)
    else if s[0] == 0x4a then
      if |s| - 1 < 8 then Decoded(None, 1)
      else Decoded(Some(DurationCast(Signed(FromBE(s[1..9]), 8), Milliseconds, u)), 9)
    else Decoded(None, 1)
  }

  /** Decoding fails exactly on an unknown or cut-short form and never reads past the form. */
  lemma DateDecodingShape(u: Unit, s: ByteString)
    ensures DateDecoding(u, s).value.Some? <==>
      |s| >= 1 && ((s[0] == 0x4b && |s| >= 5) || (s[0] == 0x4a && |s| >= 9))
    ensures DateDecoding(u, s).consumed <= |s|
    ensures DateDecoding(u, s).value.None? ==> DateDecoding(u, s).consumed == if s == [] then 0 else 1
  {
  }

  /** The 64-bit milliseconds count read back from a written milliseconds form. */
  lemma MillisecondsFormRead(ms: int, rest: ByteString)
    requires IsInt64(ms)
    ensures var s := [0x4a] + BE(ms, 8) + rest; |s| >= 9 && Signed(FromBE(s[1..9]), 8) == ms
  {
    var s := [0x4a] + BE(ms, 8) + rest;
    assert s[1..9] == BE(ms, 8);
    SignedFromBE(ms, 8);
  }

  /** The 32-bit minutes count read back from a written minutes form. */
  lemma MinutesFormRead(min: int, rest: ByteString)
    ensures var s := [0x4b] + BE(min, 4) + rest; |s| >= 5 && Signed(FromBE(s[1..5]), 4) == Signed(min, 4)
  {
    var s := [0x4b] + BE(min, 4) + rest;
    assert s[1..5] == BE(min, 4);
    FromBEOfBE(min, 4);
    BEOfUnsigned(min, 4);
    FromBEOfBE(Signed(min, 4), 4);
    assert BE(Signed(min, 4), 4) == BE(Unsigned(Signed(min, 4), 4), 4) by { BEOfUnsigned(Signed(min, 4), 4); }
    SignedUnsigned(min, 4);
  }

  /** Narrowing to a width ignores everything above it. */
  lemma SignedUnsigned(v: int, width: nat)
    requires width > 0
    ensures Signed(Unsigned(v, width), width) == Signed(v, width)
    ensures Unsigned(Signed(v, width), width) == Unsigned(v, width)
  {
    var p := Pow256(width);
    var u := Unsigned(v, width);
    assert u == v % p;
    var q := Signed(v, width);
    assert Unsigned(q, width) == q % p;
    assert q == u || q == u - p;
    if q == u - p {
      DivModUnique(q, p, -1, u);
    } else {
      DivModUnique(q, p, 0, u);
    }
  }

  /**
   * Once the minutes form is kept to 32-bit minutes, every date whose
   * milliseconds fit in 64 bits survives encoding and decoding in its own
   * unit, whatever follows, and decoding stops at its end.
   */
  lemma DateRoundTripIntended(u: Unit, count: int, rest: ByteString)
    requires IsInt64(count * UnitMs(u))
    ensures DateDecoding(u, DateBytesIntended(u, count) + rest) == Decoded(Some(count), |DateBytesIntended(u, count)|)
  {
    CastThroughMilliseconds(count, u);
    var ms := count * UnitMs(u);
    var min := DurationCast(count, u, Minutes);
    if min * MINUTE_MS == ms && IsInt32(min) {
      MinutesFormRead(min, rest);
      assert DurationCast(min, Minutes, u) == count by {
        TruncDivExact(count, UnitMs(u));
      }
    } else {
      MillisecondsFormRead(ms, rest);
    }
  }

  /** As written the round trip holds whenever the minutes form is not taken for minutes beyond 32 bits. */
  lemma DateRoundTrip(u: Unit, count: int, rest: ByteString)
    requires IsInt64(count * UnitMs(u))
    requires IsInt32(DurationCast(count, u, Minutes)) || (count * UnitMs(u)) % MINUTE_MS != 0
    ensures DateDecoding(u, DateBytes(u, count) + rest) == Decoded(Some(count), |DateBytes(u, count)|)
  {
    DateBytesAgree(u, count);
    TruncDivBounds(count * UnitMs(u), MINUTE_MS);
    DateRoundTripIntended(u, count, rest);
  }

  /**
   * 2^31 minutes (about the year 6053) are written in the 32-bit minutes
   * form, whose count then reads back as -2^31 minutes.
   */
  lemma MinutesOverflow()
    ensures DateBytes(Minutes, 0x8000_0000) == [0x4b, 0x80, 0x00, 0x00, 0x00]
    ensures DateDecoding(Minutes, DateBytes(Minutes, 0x8000_0000)).value == Some(-0x8000_0000)
  {
    var min := 0x8000_0000;
    CastThroughMilliseconds(min, Minutes);
    TruncDivExact(min, MINUTE_MS);
    assert DurationCast(min, Minutes, Minutes) == min;
    assert BE(min, 4) == [0x80, 0x00, 0x00, 0x00];
    var s := DateBytes(Minutes, min);
    assert s == [0x4b] + BE(min, 4) + [];
    MinutesFormRead(min, []);
    PowerValues();
    assert Signed(FromBE(s[1..5]), 4) == -0x8000_0000;
    TruncDivExact(-0x8000_0000, MINUTE_MS);
  }

  /**
   * `writeDate<hours>`: 35791395 hours are 2147483700 whole minutes, above
   * the int32 range, yet the minutes form is taken; the hours read back are
   * those of -2147483596 minutes.
   */
  lemma HoursOverflow()
    ensures DateBytes(Hours, 35791395) == [0x4b, 0x80, 0x00, 0x00, 0x34]
    ensures DateDecoding(Hours, DateBytes(Hours, 35791395)).value == Some(-35791393)
  {
    var h := 35791395;
    var min := 2147483700;
    CastThroughMilliseconds(h, Hours);
    assert h * UnitMs(Hours) == min * MINUTE_MS;
    TruncDivExact(min, MINUTE_MS);
    assert DurationCast(h, Hours, Minutes) == min;
    assert BE(min, 4) == [0x80, 0x00, 0x00, 0x34];
    var s := DateBytes(Hours, h);
    assert s == [0x4b] + BE(min, 4) + [];
    MinutesFormRead(min, []);
    PowerValues();
    var back := Signed(FromBE(s[1..5]), 4);
    assert back == -2147483596;
    assert DurationCast(back, Minutes, Hours) == -((2147483596 * 60000) / 3600000);
  }

  /** The intended encoding writes the same 2^31 minutes in the milliseconds form and reads them back. */
  lemma MinutesOverflowIntended()
    ensures DateBytesIntended(Minutes, 0x8000_0000)[0] == 0x4a
    ensures DateDecoding(Minutes, DateBytesIntended(Minutes, 0x8000_0000)).value == Some(0x8000_0000)
  {
    var min := 0x8000_0000;
    CastThroughMilliseconds(min, Minutes);
    DateRoundTripIntended(Minutes, min, []);
    assert DateBytesIntended(Minutes, min) + [] == DateBytesIntended(Minutes, min);
  }

  // ---------------------------------------------------------------------
  // Methods

  /** `readDate<T>`, used by every `Decoder::decode` specialisation for a duration type. */
  method DecodeDate(d: Decoder, u: Unit) returns (r: Option<int>)
    requires d.Valid()
    modifies d.reader
    ensures d.Valid()
    ensures r == DateDecoding(u, old(d.reader.Rest())).value
    ensures d.reader.pos == old(d.reader.pos) + DateDecoding(u, old(d.reader.Rest())).consumed
  {
    ghost var s := d.reader.Rest();
    var _, code := d.reader.Read();
    assert s != [] ==> d.reader.Rest() == s[1..];
    if code == 0x4b {
      if d.reader.ByteAvailable() < 4 {
        return None;
      }
      var _, min := d.reader.ReadSignedBE(4);
      assert s[1..][..4] == s[1..5];
      return Some(DurationCast(min, Minutes, u));
    }
    if code == 0x4a {
      if d.reader.ByteAvailable() < 8 {
        return None;
      }
      var _, ms := d.reader.ReadSignedBE(8);
      assert s[1..][..8] == s[1..9];
      return Some(DurationCast(ms, Milliseconds, u));
    }
    return None;
  }

  /** `writeDate<T>`: the minutes form for a whole number of minutes, else the milliseconds form. */
  method WriteDate(e: Encoder, u: Unit, count: int)
    modifies e.writer
    ensures e.writer.data == old(e.writer.data) + DateBytes(u, count)
  {
    var minutes := DurationCast(count, u, Minutes);
    var ms := DurationCast(count, u, Milliseconds);
    if minutes * MINUTE_MS == ms {
      e.writer.WriteByte(0x4b);
      e.writer.WriteBE(minutes, 4);
    } else {
      e.writer.WriteByte(0x4a);
      e.writer.WriteBE(ms, 8);
    }
  }

  /** `Encoder::encode<minutes>`: always the minutes form, the count narrowed to `int32_t`. */
  method EncodeMinutes(e: Encoder, count: int) returns (ok: bool)
    modifies e.writer
    ensures e.writer.data == old(e.writer.data) + DateBytes(Minutes, count)
    ensures ok
  {
    assert DurationCast(count, Minutes, Minutes) == count by { TruncDivExact(count, MINUTE_MS); }
    CastThroughMilliseconds(count, Minutes);
    e.writer.WriteByte(0x4b);
    e.writer.WriteBE(count, 4);
    return true;
  }

  /** The casts between milliseconds and minutes. */
  lemma MinuteCasts(count: int)
    ensures DurationCast(count, Milliseconds, Milliseconds) == count
    ensures DurationCast(count, Milliseconds, Minutes) == TruncDiv(count, MINUTE_MS)
    ensures DurationCast(count, Minutes, Minutes) == count
    ensures DurationCast(count, Minutes, Milliseconds) == count * MINUTE_MS
  {
    CastThroughMilliseconds(count, Milliseconds);
    CastThroughMilliseconds(count, Minutes);
    TruncDivExact(count, MINUTE_MS);
  }

  /** A whole number of minutes given in milliseconds is written as those minutes. */
  lemma MillisecondsAsMinutes(count: int, minutes: int)
    requires minutes == TruncDiv(count, MINUTE_MS) && minutes * MINUTE_MS == count
    ensures DateBytes(Milliseconds, count) == DateBytes(Minutes, minutes)
  {
    MinuteCasts(count);
    MinuteCasts(minutes);
  }

  /** Any other number of milliseconds is written in the milliseconds form. */
  lemma MillisecondsAsMilliseconds(count: int)
    requires TruncDiv(count, MINUTE_MS) * MINUTE_MS != count
    ensures DateBytes(Milliseconds, count) == [0x4a] + BE(count, 8)
  {
    MinuteCasts(count);
  }

  /** `Encoder::encode<milliseconds>`: through `encode<minutes>` for a whole number of minutes. */
  method EncodeMilliseconds(e: Encoder, count: int) returns (ok: bool)
    modifies e.writer
    ensures e.writer.data == old(e.writer.data) + DateBytes(Milliseconds, count)
    ensures ok
  {
    var minutes := TruncDiv(count, MINUTE_MS);
    if minutes * MINUTE_MS == count {
      ok := EncodeMinutes(e, minutes);
      MillisecondsAsMinutes(count, minutes);
      return;
    }
    MillisecondsAsMilliseconds(count);
    assert Unsigned(0x4a, 1) == 0x4a;
    e.writer.WriteByte(0x4a);
    e.writer.WriteBE(count, 8);
    AppendAssoc(old(e.writer.data), [0x4a], BE(count, 8));
    return true;
  }

  /** `Encoder::encode` for a duration: the specialisation for each unit. */
  method EncodeDate(e: Encoder, u: Unit, count: int) returns (ok: bool)
    modifies e.writer
    ensures e.writer.data == old(e.writer.data) + DateBytes(u, count)
    ensures ok
  {
    match u {
      case Minutes => ok := EncodeMinutes(e, count);
      case Milliseconds => ok := EncodeMilliseconds(e, count);
      case _ =>
        WriteDate(e, u, count);
        ok := true;
    }
  }
}
