/**
 * The string codec. A string is written as UTF-8 in chunks of at most 32768
 * characters: every chunk but the last is 0x52 followed by a 16-bit
 * big-endian character count; the last is 0x00-0x1f (count in the lead
 * byte), 0x30-0x33 and one byte (count up to 1023) or 'S' (0x53) and a
 * 16-bit count. Lengths count characters, not bytes. Four-byte characters
 * are written as the UTF-8 bytes of their two UTF-16 surrogates, as the Java
 * implementation of the protocol does.
 */
module StringCodec {
  import opened Bytes
  import opened Wrappers
  import opened Reader
  import opened Writer
  import opened Codec
  import opened Utf8

  /** A read preceded by `n` bytes already consumed. */
  function After(n: nat, r: Decoded<ByteString>): Decoded<ByteString> {
    r.(consumed := n + r.consumed)
  }

  /** A read whose text, if it succeeds, follows `bytes`. */
  function Prepend(bytes: ByteString, r: Decoded<ByteString>): Decoded<ByteString> {
    r.(value := PrependOpt(bytes, r.value))
  }

  // ---------------------------------------------------------------------
  // Decoding

  /**
   * `finalReadUtf8String` on the input `s`: reads `length` characters. Each
   * round takes as many bytes as characters are still missing, counts the
   * characters they start (loosely: a character cut off at the end counts in
   * full), reads the bytes that complete the last one and goes on with the
   * characters still missing.
   */
  function FinalRead(s: ByteString, length: nat): (r: Decoded<ByteString>)
    ensures r.consumed <= |s|
    decreases length
  {
    if length == 0 then Decoded(Some([]), 0)
    else if |s| < length then Decoded(None, 0)
    else match LooseCount(s[..length], 0)
      case None => Decoded(None, length)
      case Some(p) =>
        if p.1 > |s| then Decoded(None, length)
        else After(p.1, Prepend(s[..p.1], FinalRead(s[p.1..], length - p.0)))
  }

  /** `decodeStringWithReader` on the input `s`: a chunk header, then the chunk. */
  function StringDecoding(s: ByteString): (r: Decoded<ByteString>)
    ensures r.consumed <= |s|
    decreases |s|, 1
  {
    if s == [] then Decoded(None, 0)
    else
      var code: int := s[0];
      var t := s[1..];
      if code <= 0x1f then After(1, ReadChunk(t, code, true))
      else if 0x30 <= code <= 0x33 then
        if t == [] then Decoded(None, 1)
        else After(2, ReadChunk(t[1..], (code - 0x30) * 256 + t[0], true))
      else if code == 0x53 || code == 0x52 then
        if |t| < 2 then Decoded(None, 1)
        else After(3, ReadChunk(t[2..], FromBE(t[..2]), code == 0x53))
      else Decoded(None, 1)
  }

  /** `readChunkString` on the input `s`: `length` characters, then, unless this is the last chunk, another chunk. */
  function ReadChunk(s: ByteString, length: nat, isLastChunk: bool): (r: Decoded<ByteString>)
    ensures r.consumed <= |s|
    decreases |s|, 2
  {
    var f := FinalRead(s, length);
    if f.value.None? || isLastChunk then f
    else After(f.consumed, Prepend(f.value.value, StringDecoding(s[f.consumed..])))
  }

  /** One round of `FinalRead` whose bytes are all there: the bytes of the round, then the rest of the read. */
  lemma FinalReadStep(s: ByteString, length: nat, p: (nat, nat))
    requires 0 < length <= |s| && LooseCount(s[..length], 0) == Some(p) && p.1 <= |s|
    ensures 1 <= p.0 <= length <= p.1
    ensures FinalRead(s, length) == After(p.1, Prepend(s[..p.1], FinalRead(s[p.1..], length - p.0)))
  {
  }

  /**
   * `FinalRead` succeeds exactly when the `length` characters are all there
   * with valid lead bytes, and then it has read exactly their bytes.
   */
  lemma {:induction false} FinalReadExact(s: ByteString, length: nat)
    ensures FinalRead(s, length).value.Some? <==> CharsLength(s, 0, length).Some?
    ensures CharsLength(s, 0, length).Some? ==>
      FinalRead(s, length) == Decoded(Some(s[..CharsLength(s, 0, length).value]), CharsLength(s, 0, length).value)
    decreases length
  {
    if length == 0 {
      assert s[..0] == [];
    } else if |s| < length || LooseCount(s[..length], 0).None? || LooseCount(s[..length], 0).value.1 > |s| {
      FinalReadFails(s, length);
    } else {
      var p := LooseCount(s[..length], 0).value;
      LooseCountSome(s, length, 0, length);
      FinalReadStep(s, length, p);
      FinalReadRound(s, length, p.0, p.1);
    }
  }

  /** A read whose bytes run short, or that meets an invalid lead byte, fails, and so does the count. */
  lemma FinalReadFails(s: ByteString, length: nat)
    requires length > 0
    requires |s| < length || LooseCount(s[..length], 0).None? || LooseCount(s[..length], 0).value.1 > |s|
    ensures FinalRead(s, length).value.None? && CharsLength(s, 0, length).None?
  {
    if |s| < length {
      assert FinalRead(s, length) == Decoded(None, 0);
    } else if LooseCount(s[..length], 0).None? {
      LooseCountNone(s, length, 0, length);
      assert FinalRead(s, length) == Decoded(None, length);
    } else {
      LooseCountSome(s, length, 0, length);
      assert FinalRead(s, length) == Decoded(None, length);
    }
  }

  /** The inductive step of `FinalReadExact` over one round of `u` characters in `raw` bytes. */
  lemma {:induction false} FinalReadRound(s: ByteString, length: nat, u: nat, raw: nat)
    requires 1 <= u <= length && raw <= |s| && CharsLength(s, 0, u) == Some(raw)
    requires FinalRead(s, length) == After(raw, Prepend(s[..raw], FinalRead(s[raw..], length - u)))
    ensures FinalRead(s, length).value.Some? <==> CharsLength(s, 0, length).Some?
    ensures CharsLength(s, 0, length).Some? ==>
      FinalRead(s, length) == Decoded(Some(s[..CharsLength(s, 0, length).value]), CharsLength(s, 0, length).value)
    decreases length, 0
  {
    var t := s[raw..];
    var left := length - u;
    FinalReadExact(t, left);
    CharsLengthThen(s, u, length, raw, left);
    var f, c := FinalRead(t, left), CharsLength(t, 0, left);
    assert f.value.Some? <==> c.Some?;
    assert c.Some? ==> c.value <= |s| - raw;
    assert c.Some? ==> f == Decoded(Some(s[raw..][..c.value]), c.value);
    assert c.None? ==> CharsLength(s, 0, length).None?;
    assert c.Some? ==> CharsLength(s, 0, length) == Some(raw + c.value);
    ReadThen(s, raw, f, c, CharsLength(s, 0, length));
  }

  /** A read of the bytes after the first `k`, prefixed by those `k`, reads the first `total` bytes. */
  lemma ReadThen(s: ByteString, k: nat, rest: Decoded<ByteString>, count: Option<nat>, total: Option<nat>)
    requires k <= |s|
    requires rest.value.Some? <==> count.Some?
    requires count.Some? ==> count.value <= |s| - k && rest == Decoded(Some(s[k..][..count.value]), count.value)
    requires count.None? ==> total.None?
    requires count.Some? ==> total == Some(k + count.value)
    ensures After(k, Prepend(s[..k], rest)).value.Some? <==> total.Some?
    ensures total.Some? ==> After(k, Prepend(s[..k], rest)) == Decoded(Some(s[..total.value]), total.value)
  {
    if count.Some? {
      assert s[..k] + s[k..][..count.value] == s[..k + count.value];
    }
  }

  /** The bytes of `n` characters from the start: those of the first `a`, then of the other `n - a` from where they end. */
  lemma CharsLengthThen(s: ByteString, a: nat, n: nat, k: nat, b: nat)
    requires a <= n && b == n - a && CharsLength(s, 0, a) == Some(k)
    ensures k <= |s|
    ensures CharsLength(s[k..], 0, b).None? ==> CharsLength(s, 0, n).None?
    ensures CharsLength(s[k..], 0, b).Some? ==> CharsLength(s, 0, n) == Some(k + CharsLength(s[k..], 0, b).value)
  {
    CharsLengthAdd(s, 0, a, b);
    assert a + b == n;
    CharsLengthLocal(s, k, s[k..], 0, b);
  }

  /** A lead byte that starts no string form is rejected after consuming only that byte. */
  lemma UnknownLeadFails(code: uint8, rest: ByteString)
    requires !(code <= 0x1f || 0x30 <= code <= 0x33 || code == 0x52 || code == 0x53)
    ensures StringDecoding([code] + rest) == Decoded(None, 1)
  {
  }

  /** An empty non-final chunk `52 00 00` is skipped and reading goes on with the next chunk. */
  lemma EmptyChunkContinues(rest: ByteString)
    ensures StringDecoding([0x52, 0x00, 0x00] + rest) == After(3, StringDecoding(rest))
  {
    var s := [0x52, 0x00, 0x00] + rest;
    assert s[1..][..2] == [0x00, 0x00];
    FromBE2(0, 0);
    assert s[1..][2..] == rest;
    PrependOptEmpty(StringDecoding(rest).value);
  }

  // ---------------------------------------------------------------------
  // Encoding

  /** The header of a last chunk of `length` characters: by the lead byte, with one more byte, or as 'S' and 16 bits. */
  function FinalHeader(length: nat): ByteString
    requires 0 < length <= StringChunkSize()
  {
    if length <= 31 then [length]
    else if length <= 1023 then [0x30 + length / 256, length % 256]
    else [0x53] + BE(length, 2)
  }

  /** The last chunk: the empty string is the single byte 0x00, any other is its header, then the bytes. */
  function FinalChunk(length: nat, bytes: ByteString): ByteString
    requires length <= StringChunkSize()
  {
    if length == 0 then [0x00] else FinalHeader(length) + bytes
  }

  /** A non-final chunk: 0x52, the count 32768, then the bytes of 32768 characters. */
  function NonFinalChunk(bytes: ByteString): (r: ByteString)
    ensures |r| == 3 + |bytes|
  {
    [0x52] + BE(StringChunkSize(), 2) + bytes
  }

  /**
   * The chunks `Encoder::encode<absl::string_view>` writes for the `length`
   * characters of the text `v` still to be written, in chunks of `size`
   * characters: non-final chunks while more than `size` characters remain,
   * then the last chunk with all remaining bytes. (The encoder only chunks
   * valid text, where the characters of a chunk are always there; the empty
   * result stands for the case that cannot arise.) The encoder's size is
   * `StringChunkSize()`; the proofs about its loop hold for any size.
   */
  function Chunks(v: ByteString, length: nat, size: nat): ByteString
    requires 0 < size <= StringChunkSize()
    decreases length
  {
    if length > size then
      match CharsLength(v, 0, size)
      case None => []
      case Some(k) => NonFinalChunk(v[..k]) + Chunks(v[k..], length - size, size)
    else FinalChunk(length, v)
  }

  /** The chunks of the encoder: 32768 characters to a non-final chunk. */
  function StringChunks(v: ByteString, length: nat): ByteString {
    Chunks(v, length, StringChunkSize())
  }

  /** `absl::string_view::substr(pos, count)`: at most `count` bytes from `pos`. */
  function Substr(s: ByteString, pos: nat, count: nat): (r: ByteString)
    requires pos <= |s|
    ensures |r| == if count < |s| - pos then count else |s| - pos
    ensures r == s[pos..pos + |r|]
  {
    if count < |s| - pos then s[pos..pos + count] else s[pos..]
  }

  /**
   * The chunks as written: the last chunk's bytes are
   * `data_view.substr(str_offset, data.size() - str_offset)`, measured with
   * the size `dataSize` of the caller's string rather than of the view
   * (`size_t` arithmetic, so a negative difference wraps). `off` is the
   * offset `str_offset` of the remaining text `v` in the view.
   */
  function ChunksAsWritten(v: ByteString, off: nat, length: nat, size: nat, dataSize: nat): ByteString
    requires 0 < size <= StringChunkSize()
    decreases length
  {
    if length > size then
      match CharsLength(v, 0, size)
      case None => []
      case Some(k) => NonFinalChunk(v[..k]) + ChunksAsWritten(v[k..], off + k, length - size, size, dataSize)
    else FinalChunk(length, Substr(v, 0, Unsigned(dataSize - off, 8)))
  }

  function StringChunksAsWritten(v: ByteString, length: nat, dataSize: nat): ByteString {
    ChunksAsWritten(v, 0, length, StringChunkSize(), dataSize)
  }

  /**
   * When the caller's string is the chunked text itself, as it is for text
   * without four-byte characters, the last chunk takes all remaining bytes
   * and the chunks as written are the intended ones.
   */
  lemma {:induction false} ChunksAsWrittenAgree(v: ByteString, off: nat, length: nat, size: nat, dataSize: nat)
    requires 0 < size <= StringChunkSize()
    requires dataSize == off + |v| && dataSize < 0x1_0000_0000_0000_0000
    ensures ChunksAsWritten(v, off, length, size, dataSize) == Chunks(v, length, size)
    decreases length
  {
    if length > size {
      match CharsLength(v, 0, size)
      case None =>
      case Some(k) =>
        var remaining := length - size;
        var next := off + k;
        ChunksAsWrittenAgree(v[k..], next, remaining, size, dataSize);
        assert ChunksAsWritten(v, off, length, size, dataSize) == NonFinalChunk(v[..k]) + ChunksAsWritten(v[k..], next, remaining, size, dataSize);
        ChunksShape(v, length, size, k, remaining);
    } else {
      PowerValues();
      assert Substr(v, 0, Unsigned(dataSize - off, 8)) == v;
    }
  }

  /** For text without four-byte characters the bytes as written are the intended ones. */
  lemma AsWrittenWithoutFours(data: ByteString)
    requires FourStartsFrom(data, 0) == [] && |data| < 0x1_0000_0000_0000_0000
    ensures StringBytesAsWritten(data) == StringBytes(data)
  {
    if CountFrom(data, 0).Some? {
      ChunksAsWrittenAgree(data, 0, CountFrom(data, 0).value, StringChunkSize(), |data|);
    }
  }

  /**
   * The text that is chunked: the input itself when it is valid and has no
   * four-byte characters, its rewrite when it has some; None when the input
   * is not valid or a four-byte character is outside U+10000-U+10FFFF.
   */
  function StringView(data: ByteString): Option<ByteString> {
    if CountFrom(data, 0).None? then None
    else if FourStartsFrom(data, 0) == [] then Some(data)
    else RewrittenFrom(data, 0)
  }

  /**
   * The text that is chunked is valid UTF-8 by lead bytes, has no four-byte
   * characters, and has one character and two bytes more than the input per
   * four-byte character of the input.
   */
  lemma StringViewValid(data: ByteString)
    requires StringView(data).Some?
    ensures var v := StringView(data).value;
      CountFrom(data, 0).Some? && CountFrom(v, 0).Some? && |FourStartsFrom(v, 0)| == 0 &&
      CountFrom(v, 0).value == CountFrom(data, 0).value + |FourStartsFrom(data, 0)| &&
      |v| == |data| + 2 * |FourStartsFrom(data, 0)|
  {
    if FourStartsFrom(data, 0) != [] {
      RewrittenCount(data, 0);
      RewrittenLength(data, 0);
    }
  }

  /**
   * The bytes `Encoder::encode<absl::string_view>` writes, or None when it
   * returns false. The character count of the chunked text is taken again,
   * as the encoder does after a rewrite, though that count never fails.
   */
  function StringBytes(data: ByteString): (r: Option<ByteString>)
    ensures r.Some? <==> StringView(data).Some?
  {
    match StringView(data)
    case None => None
    case Some(v) =>
      StringViewValid(data);
      match CountFrom(v, 0)
      case None => None
      case Some(length) => Some(StringChunks(v, length))
  }

  /** The bytes written as the code stands, with the last chunk cut to the input's byte size. */
  function StringBytesAsWritten(data: ByteString): (r: Option<ByteString>)
    ensures r.Some? <==> StringView(data).Some?
  {
    match StringView(data)
    case None => None
    case Some(v) =>
      StringViewValid(data);
      match CountFrom(v, 0)
      case None => None
      case Some(length) => Some(StringChunksAsWritten(v, length, |data|))
  }

  // ---------------------------------------------------------------------
  // Round trip

  /** The first `n` characters, which take `k` bytes, are read from those bytes alone, whatever follows them. */
  lemma CharsOfPrefix(v: ByteString, n: nat, k: nat, x: ByteString)
    requires CharsLength(v, 0, n) == Some(k)
    ensures k <= |v|
    ensures CharsLength(v[..k] + x, 0, n) == Some(k)
  {
    CharsLengthTruncate(v, 0, n, k);
    CharsLengthExtend(v[..k], x, 0, n);
  }

  lemma ShortHeader(length: nat, body: ByteString)
    requires length <= 31
    ensures StringDecoding([length] + body) == After(1, ReadChunk(body, length, true))
  {
    assert ([length] + body)[1..] == body;
  }

  lemma MediumHeader(length: nat, body: ByteString)
    requires 32 <= length <= 1023
    ensures StringDecoding([0x30 + length / 256, length % 256] + body) == After(2, ReadChunk(body, length, true))
  {
    var s := [0x30 + length / 256, length % 256] + body;
    assert s[1..][0] == length % 256;
    assert s[1..][1..] == body;
    assert (s[0] - 0x30) * 256 + length % 256 == length;
  }

  lemma LongHeader(code: uint8, length: nat, body: ByteString)
    requires code == 0x52 || code == 0x53
    requires length < 0x1_0000
    ensures StringDecoding([code] + BE(length, 2) + body) == After(3, ReadChunk(body, length, code == 0x53))
  {
    var s := [code] + BE(length, 2) + body;
    assert s[1..][..2] == BE(length, 2);
    assert s[1..][2..] == body;
    FromBEOfBE(length, 2);
    PowerValues();
  }

  /** A last-chunk header is read, and its chunk follows it. */
  lemma FinalHeaderRead(length: nat, body: ByteString)
    requires 0 < length <= StringChunkSize()
    ensures StringDecoding(FinalHeader(length) + body) == After(|FinalHeader(length)|, ReadChunk(body, length, true))
  {
    if length <= 31 {
      ShortHeader(length, body);
    } else if length <= 1023 {
      MediumHeader(length, body);
    } else {
      LongHeader(0x53, length, body);
    }
  }

  /** The last chunk of `length` characters in the bytes `bytes` reads back as those bytes. */
  lemma FinalChunkRoundTrip(length: nat, bytes: ByteString, rest: ByteString)
    requires length <= StringChunkSize() && CharsLength(bytes + rest, 0, length) == Some(|bytes|)
    ensures StringDecoding(FinalChunk(length, bytes) + rest) == Decoded(Some(bytes), |FinalChunk(length, bytes)|)
  {
    var body := bytes + rest;
    FinalReadExact(body, length);
    AppendParts(bytes, rest);
    if length == 0 {
      ShortHeader(0, rest);
    } else {
      AppendAssoc(FinalHeader(length), bytes, rest);
      FinalHeaderRead(length, body);
    }
  }

  /** A non-final chunk holding exactly 32768 characters in `chunk` is read, and reading goes on after it. */
  lemma NonFinalChunkRead(chunk: ByteString, after: ByteString)
    requires CharsLength(chunk + after, 0, StringChunkSize()) == Some(|chunk|)
    ensures StringDecoding(NonFinalChunk(chunk) + after) == After(3 + |chunk|, Prepend(chunk, StringDecoding(after)))
  {
    var body := chunk + after;
    AppendAssoc([0x52] + BE(StringChunkSize(), 2), chunk, after);
    LongHeader(0x52, StringChunkSize(), body);
    FinalReadExact(body, StringChunkSize());
    AppendParts(chunk, after);
  }

  /** Reading a chunk's bytes and then the text after them reads the whole text. */
  lemma ChunkThen(whole: ByteString, k: nat, later: Decoded<ByteString>, n: nat, read: Decoded<ByteString>)
    requires k <= |whole| && later == Decoded(Some(whole[k..]), n)
    requires read == After(3 + k, Prepend(whole[..k], later))
    ensures read == Decoded(Some(whole), 3 + k + n)
  {
    SplitAt(whole, k);
  }

  /**
   * The first 32768 characters of `v`, in a non-final chunk, followed by
   * bytes that read back as the rest of `v`, read back as `v`.
   */
  lemma NonFinalChunkThen(v: ByteString, k: nat, after: ByteString, n: nat)
    requires CharsLength(v, 0, StringChunkSize()) == Some(k)
    requires k <= |v| && StringDecoding(after) == Decoded(Some(v[k..]), n)
    ensures StringDecoding(NonFinalChunk(v[..k]) + after) == Decoded(Some(v), 3 + k + n)
  {
    CharsOfPrefix(v, StringChunkSize(), k, after);
    NonFinalChunkRead(v[..k], after);
    ChunkThen(v, k, StringDecoding(after), n, StringDecoding(NonFinalChunk(v[..k]) + after));
  }

  /**
   * More than `size` characters: a non-final chunk of the first `size`, then
   * the chunks of the `remaining` characters after them.
   */
  lemma ChunksShape(v: ByteString, length: nat, size: nat, k: nat, remaining: nat)
    requires 0 < size <= StringChunkSize() && length > size && remaining == length - size
    requires CharsLength(v, 0, size) == Some(k) && k <= |v|
    ensures Chunks(v, length, size) == NonFinalChunk(v[..k]) + Chunks(v[k..], remaining, size)
  {
  }

  /**
   * More than `size` characters, the first `size` of them taking `k` bytes:
   * the chunks as written are a non-final chunk of those bytes, then the
   * chunks as written of the text `after` them, at the offset `next`.
   */
  lemma ChunksAsWrittenShape(v: ByteString, off: nat, length: nat, size: nat, dataSize: nat, k: nat,
    chunk: ByteString, after: ByteString, next: nat, remaining: nat)
    requires 0 < size <= StringChunkSize() && length > size && remaining == length - size
    requires CharsLength(v, 0, size) == Some(k) && k <= |v|
    requires chunk == v[..k] && after == v[k..] && next == off + k
    ensures ChunksAsWritten(v, off, length, size, dataSize) ==
      NonFinalChunk(chunk) + ChunksAsWritten(after, next, remaining, size, dataSize)
  {
    if length > size {
      var tail := ChunksAsWritten(after, next, remaining, size, dataSize);
      assert ChunksAsWritten(v, off, length, size, dataSize) == NonFinalChunk(chunk) + tail;
    }
  }

  /** More than 32768 characters: a non-final chunk of the first 32768, then the chunks of the rest. */
  lemma NonFinalChunkShape(v: ByteString, length: nat, k: nat, remaining: nat)
    requires length > StringChunkSize() && remaining == length - StringChunkSize()
    requires CharsLength(v, 0, StringChunkSize()) == Some(k) && k <= |v|
    ensures StringChunks(v, length) == NonFinalChunk(v[..k]) + StringChunks(v[k..], remaining)
  {
    ChunksShape(v, length, StringChunkSize(), k, remaining);
  }

  /** The inductive step of `ChunksRoundTrip`: a non-final chunk, then chunks that read back as the rest of the text. */
  lemma ChunksStep(v: ByteString, length: nat, remaining: nat, rest: ByteString, k: nat, tail: ByteString)
    requires length > StringChunkSize() && remaining == length - StringChunkSize()
    requires CharsLength(v, 0, StringChunkSize()) == Some(k) && k <= |v|
    requires tail == StringChunks(v[k..], remaining)
    requires StringDecoding(tail + rest) == Decoded(Some(v[k..]), |tail|)
    ensures StringDecoding(StringChunks(v, length) + rest) == Decoded(Some(v), |StringChunks(v, length)|)
  {
    NonFinalChunkShape(v, length, k, remaining);
    AppendAssoc(NonFinalChunk(v[..k]), tail, rest);
    NonFinalChunkThen(v, k, tail + rest, |tail|);
  }

  /** The chunks of `length` valid characters read back as the text, and the read stops at their end. */
  lemma {:induction false} ChunksRoundTrip(v: ByteString, length: nat, rest: ByteString)
    requires CountFrom(v, 0) == Some(length)
    ensures StringDecoding(StringChunks(v, length) + rest) == Decoded(Some(v), |StringChunks(v, length)|)
    decreases length
  {
    var size := StringChunkSize();
    if length > size {
      var remaining := length - size;
      var k := CountDropSplit(v, length, size);
      var tail := StringChunks(v[k..], remaining);
      ChunksRoundTrip(v[k..], remaining, rest);
      ChunksStep(v, length, remaining, rest, k, tail);
    } else {
      LastChunkRoundTrip(v, length, rest);
    }
  }

  /** A text of at most one chunk is written as its final chunk, which reads back as the text. */
  lemma LastChunkRoundTrip(v: ByteString, length: nat, rest: ByteString)
    requires CountFrom(v, 0) == Some(length) && length <= StringChunkSize()
    ensures StringDecoding(StringChunks(v, length) + rest) == Decoded(Some(v), |StringChunks(v, length)|)
  {
    CountSpans(v, 0);
    CharsLengthExtend(v, rest, 0, length);
    FinalChunkRoundTrip(length, v, rest);
  }

  /**
   * Decoding the bytes the encoder writes gives back the text it chunked,
   * and stops at their end, whatever follows.
   */
  lemma StringRoundTrip(data: ByteString, rest: ByteString)
    requires StringBytes(data).Some?
    ensures StringDecoding(StringBytes(data).value + rest) == Decoded(StringView(data), |StringBytes(data).value|)
  {
    var v := StringView(data).value;
    StringViewValid(data);
    ChunksRoundTrip(v, CountFrom(v, 0).value, rest);
  }

  /**
   * What the encoder writes as the code stands reads back as the input
   * itself when the input has no four-byte characters.
   */
  lemma AsWrittenRoundTrip(data: ByteString, rest: ByteString)
    requires StringBytesAsWritten(data).Some?
    requires FourStartsFrom(data, 0) == [] && |data| < 0x1_0000_0000_0000_0000
    ensures StringDecoding(StringBytesAsWritten(data).value + rest) ==
      Decoded(Some(data), |StringBytesAsWritten(data).value|)
  {
    AsWrittenWithoutFours(data);
    StringRoundTrip(data, rest);
  }

  /** U+1F600 is one four-byte character, rewritten to two three-byte characters. */
  lemma AstralRewrite()
    ensures var data: ByteString := [0xF0, 0x9F, 0x98, 0x80];
      var v: ByteString := [0xED, 0xA0, 0xBD, 0xED, 0xB8, 0x80];
      CountFrom(data, 0) == Some(1) && FourStartsFrom(data, 0) == [0] &&
      RewrittenFrom(data, 0) == Some(v) && CountFrom(v, 0) == Some(2)
  {
    var data: ByteString := [0xF0, 0x9F, 0x98, 0x80];
    var v: ByteString := [0xED, 0xA0, 0xBD, 0xED, 0xB8, 0x80];
    assert CharLength(data[0]) == 4;
    var cp := CodePoint(data[0], data[1], data[2], data[3]);
    assert cp == 0x1F600;
    assert SurrogateBytes(cp) == v;
    FourRewrittenAt(data, 0, 4, cp);
    assert RewrittenFrom(data, 4) == Some([]);
    assert RewrittenFrom(data, 0) == FourRewritten(data, 0);
    assert v + [] == v;
    assert CountFrom(v, 3) == Some(1);
  }

  /** Two characters announced, of which only one and a lead byte are there: the read fails. */
  lemma ShortFinalChunkFails()
    ensures StringDecoding([0x02, 0xED, 0xA0, 0xBD, 0xED]).value.None?
  {
    var s: ByteString := [0x02, 0xED, 0xA0, 0xBD, 0xED];
    var t := s[1..];
    assert LooseCount(t[..2], 0) == Some((1, 3));
    assert t[3..] == [0xED];
    assert LooseCount(t[3..][..1], 0) == Some((1, 3));
    assert FinalRead(t[3..], 1).value.None?;
    assert FinalRead(t, 2).value.None?;
  }

  /**
   * U+1F600 alone: its rewrite is two characters in six bytes, but the last
   * chunk as written keeps only the input's four bytes, so the bytes written
   * do not read back, while the intended bytes do.
   */
  lemma SlicedLastChunk()
    ensures var data: ByteString := [0xF0, 0x9F, 0x98, 0x80];
      StringBytes(data) == Some([0x02, 0xED, 0xA0, 0xBD, 0xED, 0xB8, 0x80]) &&
      StringBytesAsWritten(data) == Some([0x02, 0xED, 0xA0, 0xBD, 0xED]) &&
      StringDecoding([0x02, 0xED, 0xA0, 0xBD, 0xED]).value.None? &&
      StringDecoding([0x02, 0xED, 0xA0, 0xBD, 0xED, 0xB8, 0x80]).value == Some([0xED, 0xA0, 0xBD, 0xED, 0xB8, 0x80])
  {
    var data: ByteString := [0xF0, 0x9F, 0x98, 0x80];
    var v: ByteString := [0xED, 0xA0, 0xBD, 0xED, 0xB8, 0x80];
    AstralRewrite();
    assert StringView(data) == Some(v);
    assert StringBytes(data) == Some(StringChunks(v, 2));
    assert StringBytesAsWritten(data) == Some(StringChunksAsWritten(v, 2, 4));
    PowerValues();
    assert Substr(v, 0, Unsigned(4, 8)) == v[..4];
    assert StringChunks(v, 2) == [0x02] + v == [0x02, 0xED, 0xA0, 0xBD, 0xED, 0xB8, 0x80];
    assert StringChunksAsWritten(v, 2, 4) == [0x02] + v[..4] == [0x02, 0xED, 0xA0, 0xBD, 0xED];
    ShortFinalChunkFails();
    StringRoundTrip(data, []);
    assert [0x02] + v + [] == [0x02] + v;
  }

  /** The empty string is the single byte 0x00. */
  lemma EmptyStringBytes()
    ensures StringBytes([]) == Some([0x00])
  {
    assert CountFrom([], 0) == Some(0);
    assert FourStartsFrom([], 0) == [];
  }

  /**
   * The header forms at their bounds: 31 characters in the lead byte, 32
   * and 1023 with one more byte, 1024 and a full chunk of 32768 after 'S'.
   */
  lemma FinalHeaderBounds()
    ensures FinalHeader(31) == [0x1f]
    ensures FinalHeader(32) == [0x30, 0x20]
    ensures FinalHeader(1023) == [0x33, 0xff]
    ensures FinalHeader(1024) == [0x53, 0x04, 0x00]
    ensures FinalHeader(32768) == [0x53, 0x80, 0x00]
  {
    PowerValues();
    assert BE(1024, 2) == [0x04, 0x00];
    assert BE(32768, 2) == [0x80, 0x00];
  }

  /** A text of exactly 32768 characters is one last chunk with the 'S' header. */
  lemma FullChunkIsLast(v: ByteString)
    requires CountFrom(v, 0) == Some(32768)
    ensures StringChunks(v, 32768) == [0x53, 0x80, 0x00] + v
  {
    FinalHeaderBounds();
  }

  /** One character more: a non-final chunk of 32768 characters, then that character with the header 0x01. */
  lemma OneOverFullChunk(v: ByteString) returns (k: nat)
    requires CountFrom(v, 0) == Some(32769)
    ensures k <= |v| && CharsLength(v, 0, 32768) == Some(k)
    ensures StringChunks(v, 32769) == [0x52, 0x80, 0x00] + v[..k] + [0x01] + v[k..]
  {
    var size := StringChunkSize();
    var length := 32769;
    var remaining := length - size;
    k := CountDropSplit(v, length, size);
    ChunksShape(v, length, size, k, remaining);
    assert Chunks(v[k..], remaining, size) == [0x01] + v[k..];
    PowerValues();
    assert BE(32768, 2) == [0x80, 0x00];
    assert NonFinalChunk(v[..k]) == [0x52, 0x80, 0x00] + v[..k];
  }
}
