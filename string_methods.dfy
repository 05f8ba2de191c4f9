/**
 * The string codec's decoder and encoder as they run: they read from the
 * decoder's `StringReader` and append to the encoder's `StringWriter`,
 * step by step, and each is proved to do what the functions of
 * `StringCodec` say.
 */
module StringCodecImpl {
  import opened Bytes
  import opened Wrappers
  import opened Reader
  import opened Writer
  import opened Codec
  import opened Utf8
  import opened Utf8Scan
  import opened StringCodec

  // ---------------------------------------------------------------------
  // Decoding

  /** Reading `chunk` after the bytes `read` already taken is one read of both. */
  lemma ReadMore(read: ByteString, chunk: ByteString, later: Decoded<ByteString>)
    ensures After(|read|, Prepend(read, After(|chunk|, Prepend(chunk, later)))) ==
      After(|read + chunk|, Prepend(read + chunk, later))
  {
    PrependOptTwice(read, chunk, later.value);
  }

  /**
   * Part way through `FinalRead(s, length)`: the bytes `read` are read, and
   * `remaining` characters are still to be read from `rest`.
   */
  ghost predicate ReadSoFar(s: ByteString, length: nat, read: ByteString, rest: ByteString, remaining: nat) {
    FinalRead(s, length) == After(|read|, Prepend(read, FinalRead(rest, remaining)))
  }

  /** One round of `FinalRead` moves the bytes of the round from the input still to read to the bytes read. */
  lemma FinalReadAdvance(s: ByteString, length: nat, read: ByteString, rest: ByteString, remaining: nat, p: (nat, nat))
    requires ReadSoFar(s, length, read, rest, remaining)
    requires 0 < remaining <= |rest| && LooseCount(rest[..remaining], 0) == Some(p) && p.1 <= |rest|
    ensures p.0 <= remaining
    ensures ReadSoFar(s, length, read + rest[..p.1], rest[p.1..], remaining - p.0)
  {
    FinalReadStep(rest, remaining, p);
    ReadMore(read, rest[..p.1], FinalRead(rest[p.1..], remaining - p.0));
  }

  /**
   * One round of `FinalRead` on `s` with `remaining > 0` characters to go:
   * the characters the round reads and the bytes they take, or None when
   * the round fails.
   */
  function Round(s: ByteString, remaining: nat): Option<(nat, nat)>
    requires remaining > 0
  {
    if |s| < remaining then None
    else match LooseCount(s[..remaining], 0)
      case None => None
      case Some(p) => if p.1 > |s| then None else Some(p)
  }

  /** How far a failed round has read: nothing when the bytes are short, the `remaining` bytes otherwise. */
  function RoundFailure(s: ByteString, remaining: nat): nat {
    if |s| < remaining then 0 else remaining
  }

  /** `FinalRead` is its rounds: a failed round fails the read where it stopped, a round that reads goes on. */
  lemma FinalReadRounds(s: ByteString, length: nat, read: ByteString, rest: ByteString, remaining: nat)
    requires ReadSoFar(s, length, read, rest, remaining) && remaining > 0
    ensures Round(rest, remaining).None? ==> FinalRead(s, length) == Decoded(None, |read| + RoundFailure(rest, remaining))
    ensures Round(rest, remaining).Some? ==>
      var p := Round(rest, remaining).value;
      1 <= p.0 <= remaining <= p.1 <= |rest| &&
      ReadSoFar(s, length, read + rest[..p.1], rest[p.1..], remaining - p.0)
  {
    if Round(rest, remaining).Some? {
      var p := Round(rest, remaining).value;
      FinalReadStep(rest, remaining, p);
      ReadMore(read, rest[..p.1], FinalRead(rest[p.1..], remaining - p.0));
    }
  }

  /** With no characters left to read, the whole read is the bytes read. */
  lemma ReadDone(s: ByteString, length: nat, read: ByteString, rest: ByteString)
    requires ReadSoFar(s, length, read, rest, 0)
    ensures FinalRead(s, length) == Decoded(Some(read), |read|)
  {
    assert read + [] == read;
  }

  /**
   * The body of the loop of `finalReadUtf8String`: reads `remaining` bytes,
   * counts the characters they start and reads the bytes that complete the
   * last one.
   */
  method ReadRound(reader: StringReader, remaining: nat) returns (ok: bool, chunk: ByteString, count: nat)
    requires reader.Valid() && remaining > 0
    modifies reader
    ensures reader.Valid()
    ensures var r := Round(old(reader.Rest()), remaining);
      ok == r.Some? &&
      (ok ==> count == r.value.0 && chunk == old(reader.Rest())[..r.value.1] && reader.pos == old(reader.pos) + r.value.1) &&
      (!ok ==> reader.pos == old(reader.pos) + RoundFailure(old(reader.Rest()), remaining))
  {
    ghost var rest := reader.Rest();
    if reader.ByteAvailable() < remaining {
      return false, [], 0;
    }
    chunk := reader.ReadNBytes(remaining);
    var utf8Length, raw := Utf8LengthLoose(chunk);
    if utf8Length == -1 {
      return false, chunk, 0;
    }
    if raw > remaining {
      var padding := raw - remaining;
      if reader.ByteAvailable() < padding {
        return false, chunk, 0;
      }
      var more := reader.ReadNBytes(padding);
      assert rest[..remaining] + rest[remaining..][..padding] == rest[..raw];
      chunk := chunk + more;
    }
    return true, chunk, utf8Length;
  }

  /**
   * `finalReadUtf8String`: appends `length` characters read from `reader` to
   * `output`. Reports whether they were all there with valid lead bytes; the
   * reader has then consumed exactly their bytes.
   */
  method FinalReadUtf8(output: ByteString, reader: StringReader, length: nat) returns (ok: bool, out: ByteString)
    requires reader.Valid()
    modifies reader
    ensures reader.Valid()
    ensures var r := FinalRead(old(reader.Rest()), length);
      ok == r.value.Some? && (ok ==> out == output + r.value.value) && reader.pos == old(reader.pos) + r.consumed
  {
    ghost var s := reader.Rest();
    ghost var read: ByteString := [];
    out := output;
    var remaining: nat := length;
    PrependOptEmpty(FinalRead(s, length).value);
    while remaining > 0
      invariant reader.Valid() && reader.pos == old(reader.pos) + |read| && out == output + read
      invariant ReadSoFar(s, length, read, reader.Rest(), remaining)
      decreases remaining
    {
      ghost var rest := reader.Rest();
      FinalReadRounds(s, length, read, rest, remaining);
      var roundOk, chunk, count := ReadRound(reader, remaining);
      if !roundOk {
        return false, out + chunk;
      }
      assert reader.Rest() == rest[|chunk|..];
      read := read + chunk;
      out := out + chunk;
      remaining := remaining - count;
    }
    ReadDone(s, length, read, reader.Rest());
    ok := true;
  }

  /**
   * `decodeStringWithReader`: reads a chunk header from `reader` and then
   * the chunk, appending its characters to `output`, as `StringDecoding`
   * says.
   */
  method DecodeStringWithReader(output: ByteString, reader: StringReader) returns (ok: bool, out: ByteString)
    requires reader.Valid()
    modifies reader
    ensures reader.Valid()
    ensures var r := StringDecoding(old(reader.Rest()));
      ok == r.value.Some? && (ok ==> out == output + r.value.value) && reader.pos == old(reader.pos) + r.consumed
    decreases reader.ByteAvailable(), 1
  {
    ghost var s := reader.Rest();
    var read, code := reader.Read();
    if !read {
      return false, output;
    }
    assert reader.Rest() == s[1..];
    if code <= 0x1f {
      ok, out := ReadChunkString(output, reader, code, true);
      return;
    }
    if 0x30 <= code <= 0x33 {
      var more, b := reader.Read();
      if !more {
        return false, output;
      }
      assert reader.Rest() == s[1..][1..];
      var deltaLength: nat := (code as int - 0x30) * 256 + b as int;
      ok, out := ReadChunkString(output, reader, deltaLength, true);
      return;
    }
    if code == 0x53 {
      var more, n := reader.ReadBE(2);
      if !more {
        return false, output;
      }
      assert reader.Rest() == s[1..][2..];
      ok, out := ReadChunkString(output, reader, n, true);
      return;
    }
    if code == 0x52 {
      var more, n := reader.ReadBE(2);
      if !more {
        return false, output;
      }
      assert reader.Rest() == s[1..][2..];
      ok, out := ReadChunkString(output, reader, n, false);
      return;
    }
    return false, output;
  }

  /**
   * `readChunkString`: `length` characters, then, unless this is the last
   * chunk, the next chunk, as `ReadChunk` says.
   */
  method ReadChunkString(output: ByteString, reader: StringReader, length: nat, isLastChunk: bool)
    returns (ok: bool, out: ByteString)
    requires reader.Valid()
    modifies reader
    ensures reader.Valid()
    ensures var r := ReadChunk(old(reader.Rest()), length, isLastChunk);
      ok == r.value.Some? && (ok ==> out == output + r.value.value) && reader.pos == old(reader.pos) + r.consumed
    decreases reader.ByteAvailable(), 2
  {
    ghost var s := reader.Rest();
    ghost var f := FinalRead(s, length);
    ok, out := FinalReadUtf8(output, reader, length);
    if !ok || isLastChunk {
      return;
    }
    assert reader.Rest() == s[f.consumed..];
    ok, out := DecodeStringWithReader(out, reader);
    if ok {
      AppendAssoc(output, f.value.value, StringDecoding(s[f.consumed..]).value.value);
    }
  }

  /** `Decoder::decode<std::string>`: the decoded string, or null. */
  method DecodeString(d: Decoder) returns (r: Option<ByteString>)
    requires d.Valid()
    modifies d.reader
    ensures d.Valid()
    ensures r == StringDecoding(old(d.reader.Rest())).value
    ensures d.reader.pos == old(d.reader.pos) + StringDecoding(old(d.reader.Rest())).consumed
  {
    ghost var spec := StringDecoding(d.reader.Rest());
    var ok, out := DecodeStringWithReader([], d.reader);
    if !ok {
      return None;
    }
    assert [] + spec.value.value == spec.value.value;
    return Some(out);
  }

  // ---------------------------------------------------------------------
  // Encoding

  /**
   * One turn of the encoder's chunk loop, for chunks of `size` characters:
   * with more than `size` characters left from `strOffset`, the first
   * recorded offset ends the next `size` characters, and the offsets and the
   * count of the `remaining` characters go on from it.
   */
  lemma NextChunk(view: ByteString, strOffset: nat, length: nat, remaining: nat, size: nat, ends: seq<nat>)
    returns (rawOffset: nat)
    requires 0 < size && strOffset <= |view| && CountFrom(view, strOffset) == Some(length)
    requires length > size && remaining == length - size
    requires ends == ChunkEnds(view, strOffset, length, size)
    ensures strOffset <= rawOffset <= |view| && CharsLength(view, strOffset, size) == Some(rawOffset - strOffset)
    ensures ends != [] && ends[0] == rawOffset
    ensures ends[1..] == ChunkEnds(view, rawOffset, remaining, size)
    ensures CountFrom(view, rawOffset) == Some(remaining)
  {
    CountSplit(view, strOffset, size);
    var k := CharsLength(view, strOffset, size).value;
    ChunkFilledMore(view, strOffset, k, length, size);
    rawOffset := strOffset + k;
  }

  /** Characters counted from `off` are counted the same in the text that starts there. */
  lemma CharsLengthSuffix(s: ByteString, off: nat, n: nat, k: nat)
    requires off <= |s| && CharsLength(s, off, n) == Some(k)
    ensures CharsLength(s[off..], 0, n) == Some(k)
  {
    assert s[off..][0..] == s[off..];
    CharsLengthLocal(s, off, s[off..], 0, n);
  }

  /** The chunk of those `size` characters comes first, then the chunks of the rest, as written. */
  lemma NextChunkBytes(view: ByteString, strOffset: nat, length: nat, remaining: nat, size: nat, dataSize: nat,
    rawOffset: nat)
    requires 0 < size <= StringChunkSize() && length > size && remaining == length - size
    requires strOffset <= rawOffset <= |view| && CharsLength(view, strOffset, size) == Some(rawOffset - strOffset)
    ensures ChunksAsWritten(view[strOffset..], strOffset, length, size, dataSize) ==
      NonFinalChunk(view[strOffset..rawOffset]) + ChunksAsWritten(view[rawOffset..], rawOffset, remaining, size, dataSize)
  {
    var k := rawOffset - strOffset;
    var rest := view[strOffset..];
    CharsLengthSuffix(view, strOffset, size, k);
    SuffixSplit(view, strOffset, rawOffset);
    ChunksAsWrittenShape(rest, strOffset, length, size, dataSize, k, view[strOffset..rawOffset], view[rawOffset..],
      rawOffset, remaining);
  }

  /**
   * The state of the encoder's chunk loop, for chunks of `size` characters
   * of a text `view` taken from a caller's string of `dataSize` bytes:
   * `length` characters are left from `strOffset`, `ends` are the offsets
   * recorded for their chunks, and the chunks `written` so far followed by
   * the chunks of what is left are the chunks as written of the whole text
   * of `total` characters.
   */
  ghost predicate ChunkLoop(view: ByteString, total: nat, size: nat, dataSize: nat, written: ByteString,
    strOffset: nat, length: nat, ends: seq<nat>)
  {
    0 < size <= StringChunkSize() && strOffset <= |view| && CountFrom(view, strOffset) == Some(length) &&
    ends == ChunkEnds(view, strOffset, length, size) &&
    ChunksAsWritten(view, 0, total, size, dataSize) ==
      written + ChunksAsWritten(view[strOffset..], strOffset, length, size, dataSize)
  }

  /**
   * A turn of the loop writes the non-final chunk up to the offset recorded
   * at position `pos` and moves on to it, with `remaining` characters left.
   */
  lemma ChunkLoopStep(view: ByteString, total: nat, size: nat, dataSize: nat, written: ByteString, strOffset: nat,
    length: nat, remaining: nat, perChunk: seq<nat>, pos: nat)
    returns (rawOffset: nat)
    requires pos <= |perChunk| && length > size && remaining == length - size
    requires ChunkLoop(view, total, size, dataSize, written, strOffset, length, perChunk[pos..])
    ensures pos < |perChunk| && perChunk[pos] == rawOffset && strOffset <= rawOffset <= |view|
    ensures ChunkLoop(view, total, size, dataSize, written + NonFinalChunk(view[strOffset..rawOffset]), rawOffset,
      remaining, perChunk[pos + 1..])
  {
    var ends := perChunk[pos..];
    rawOffset := NextChunk(view, strOffset, length, remaining, size, ends);
    NextChunkBytes(view, strOffset, length, remaining, size, dataSize, rawOffset);
    AppendAssoc(written, NonFinalChunk(view[strOffset..rawOffset]),
      ChunksAsWritten(view[rawOffset..], rawOffset, remaining, size, dataSize));
    assert ends[1..] == perChunk[pos + 1..];
  }

  /**
   * When the loop ends, the last chunk holds the remaining text cut to the
   * caller's byte size less the offset, in 64-bit arithmetic.
   */
  lemma ChunkLoopDone(view: ByteString, total: nat, size: nat, dataSize: nat, written: ByteString, strOffset: nat,
    length: nat, ends: seq<nat>)
    requires ChunkLoop(view, total, size, dataSize, written, strOffset, length, ends) && length <= size
    ensures ChunksAsWritten(view, 0, total, size, dataSize) ==
      written + FinalChunk(length, Substr(view, strOffset, Unsigned(dataSize - strOffset, 8)))
  {
    var count := Unsigned(dataSize - strOffset, 8);
    assert Substr(view[strOffset..], 0, count) == Substr(view, strOffset, count);
  }

  /** `writeByte(0x52)`, `writeBE<uint16_t>(32768)` and the bytes of the chunk. */
  method WriteNonFinalChunk(e: Encoder, bytes: ByteString)
    modifies e.writer
    ensures e.writer.data == old(e.writer.data) + NonFinalChunk(bytes)
  {
    PowerValues();
    e.writer.WriteByte(0x52);
    e.writer.WriteBE(StringChunkSize(), 2);
    e.writer.RawWriteView(bytes);
  }

  /** The header of the last chunk of `Encoder::encode<absl::string_view>`, by its character count. */
  method WriteFinalHeader(e: Encoder, length: nat)
    requires 0 < length <= StringChunkSize()
    modifies e.writer
    ensures e.writer.data == old(e.writer.data) + FinalHeader(length)
  {
    if length <= 31 {
      e.writer.WriteByte(length);
    } else if length <= 1023 {
      var code := length / 256;
      var remain := length % 256;
      e.writer.WriteByte(0x30 + code);
      e.writer.WriteByte(remain);
    } else {
      PowerValues();
      e.writer.WriteByte(0x53);
      e.writer.WriteBE(length, 2);
    }
  }

  /** The last chunk of `Encoder::encode<absl::string_view>`: the single byte 0x00 for no characters, else its header, then the bytes. */
  method WriteLastChunk(e: Encoder, length: nat, bytes: ByteString)
    requires length <= StringChunkSize()
    modifies e.writer
    ensures e.writer.data == old(e.writer.data) + FinalChunk(length, bytes)
  {
    if length == 0 {
      e.writer.WriteByte(0x00);
      return;
    }
    WriteFinalHeader(e, length);
    e.writer.RawWriteView(bytes);
  }

  /**
   * The chunk loop and the last chunk of `Encoder::encode<absl::string_view>`
   * for a valid text `view` of `length` characters, given the offsets its
   * count recorded and the byte size `dataSize` of the caller's string:
   * non-final chunks while more than 32768 characters are left, then the
   * last chunk, whose bytes are cut to `dataSize` less the offset reached.
   */
  method WriteChunks(e: Encoder, view: ByteString, total: nat, perChunk: seq<nat>, dataSize: nat)
    requires CountFrom(view, 0) == Some(total)
    requires perChunk == ChunkEnds(view, 0, total, StringChunkSize())
    modifies e.writer
    ensures e.writer.data == old(e.writer.data) + StringChunksAsWritten(view, total, dataSize)
  {
    var stepLength := StringChunkSize();
    ghost var written: ByteString := [];
    var length: nat := total;
    var strOffset: nat := 0;
    var pos: nat := 0;
    assert view[0..] == view;
    while length > stepLength
      invariant pos <= |perChunk|
      invariant ChunkLoop(view, total, stepLength, dataSize, written, strOffset, length, perChunk[pos..])
      invariant e.writer.data == old(e.writer.data) + written
      decreases length
    {
      var remaining := length - stepLength;
      ghost var next := ChunkLoopStep(view, total, stepLength, dataSize, written, strOffset, length, remaining,
        perChunk, pos);
      var rawOffset := perChunk[pos];
      WriteNonFinalChunk(e, Substr(view, strOffset, rawOffset - strOffset));
      AppendAssoc(old(e.writer.data), written, NonFinalChunk(view[strOffset..rawOffset]));
      written := written + NonFinalChunk(view[strOffset..rawOffset]);
      length := remaining;
      pos := pos + 1;
      strOffset := rawOffset;
    }
    ChunkLoopDone(view, total, stepLength, dataSize, written, strOffset, length, perChunk[pos..]);
    var last := Substr(view, strOffset, Unsigned(dataSize - strOffset, 8));
    WriteLastChunk(e, length, last);
    AppendAssoc(old(e.writer.data), written, FinalChunk(length, last));
  }

  /**
   * `Encoder::encode<absl::string_view>`: appends the chunks of the string,
   * or nothing and false when it is not valid UTF-8 by its lead bytes or a
   * four-byte character is out of range. The last chunk is cut to the
   * caller's byte size, so text with four-byte characters loses its tail
   * (`StringCodec.SlicedLastChunk`); without them the bytes are the
   * intended `StringCodec.StringBytes` (`StringCodec.AsWrittenWithoutFours`).
   */
  method EncodeString(e: Encoder, data: ByteString) returns (ok: bool)
    modifies e.writer
    ensures ok == StringBytesAsWritten(data).Some?
    ensures e.writer.data == old(e.writer.data) + (if ok then StringBytesAsWritten(data).value else [])
  {
    var length, perChunk, four := Utf8StringLength(data);
    if length == -1 {
      return false;
    }
    var view := data;
    if four != [] {
      var rewritten := RewriteUtf8(data, four);
      if RewrittenFrom(data, 0).Some? {
        RewrittenLength(data, 0);
      }
      if rewritten == [] {
        return false;
      }
      length, perChunk, four := Utf8StringLength(rewritten);
      if length == -1 {
        return false;
      }
      view := rewritten;
    }
    assert StringView(data) == Some(view) && CountFrom(view, 0) == Some(length);
    WriteChunks(e, view, length, perChunk, |data|);
    return true;
  }
}
