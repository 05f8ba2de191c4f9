/**
 * The boolean codec: 'T' (0x54) is true and 'F' (0x46) is false. Any other
 * lead byte, or no byte at all, is an unexpected type, recorded in the
 * decoder together with the offset where it was found.
 */
module BoolCodec {
  import opened Bytes
  import opened Wrappers
  import opened Codec

  /** The byte `Encoder::encode<bool>` writes. */
  function BoolBytes(b: bool): ByteString {
    if b then [0x54] else [0x46]
  }

  /** `Decoder::decode<bool>` on the input `s`. A missing byte reads as 0, which is no boolean. */
  function BoolDecoding(s: ByteString): Decoded<bool> {
    if s == [] then Decoded(None, 0)
    else if s[0] == 0x46 then Decoded(Some(false), 1)
    else if s[0] == 0x54 then Decoded(Some(true), 1)
    else Decoded(None, 1)
  }

  /** Both booleans survive encoding and decoding, whatever follows, and the encoding is one byte. */
  lemma BoolRoundTrip(b: bool, rest: ByteString)
    ensures |BoolBytes(b)| == 1
    ensures BoolDecoding(BoolBytes(b) + rest) == Decoded(Some(b), 1)
  {
  }

  /**
   * Decoding succeeds exactly on the two boolean bytes, and then the byte it
   * consumed is the encoding of the value it returns; otherwise it consumes the
   * lead byte if there is one.
   */
  lemma BoolDecodingShape(s: ByteString)
    ensures BoolDecoding(s).value.Some? <==> s != [] && (s[0] == 0x46 || s[0] == 0x54)
    ensures BoolDecoding(s).value.Some? ==> s[..1] == BoolBytes(BoolDecoding(s).value.value)
    ensures BoolDecoding(s).consumed == if s == [] then 0 else 1
  {
    if s != [] {
      assert s[..1] == [s[0]];
    }
  }

  /** `Decoder::decode<bool>`: on an unexpected byte the error and its offset are recorded. */
  method DecodeBool(d: Decoder) returns (r: Option<bool>)
    requires d.Valid()
    modifies d.reader, d`errorCode, d`errorPos
    ensures d.Valid()
    ensures r == BoolDecoding(old(d.reader.Rest())).value
    ensures d.reader.pos == old(d.reader.pos) + BoolDecoding(old(d.reader.Rest())).consumed
    ensures r.None? ==> d.errorCode == UnexpectedType && d.errorPos == Signed(d.reader.pos, 4)
    ensures r.Some? ==> d.errorCode == old(d.errorCode) && d.errorPos == old(d.errorPos)
  {
    var _, code := d.reader.Read();
    if code == 0x46 {
      return Some(false);
    }
    if code == 0x54 {
      return Some(true);
    }
    d.errorPos := Signed(d.Offset(), 4);
    d.errorCode := UnexpectedType;
    return None;
  }

  /** `Encoder::encode<bool>`: appends 'T' or 'F'; never fails. */
  method EncodeBool(e: Encoder, b: bool) returns (ok: bool)
    modifies e.writer
    ensures e.writer.data == old(e.writer.data) + BoolBytes(b)
    ensures ok
  {
    if b {
      e.writer.WriteByte(0x54);
    } else {
      e.writer.WriteByte(0x46);
    }
    return true;
  }
}
