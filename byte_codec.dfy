/**
 * The binary codec. Short byte strings carry their length in the lead byte
 * (0x20-0x2f) or in the lead byte and one more (0x34-0x37); longer ones are
 * cut into chunks of 1024 bytes, each 'A' (0x41, more to come) or 'B' (0x42,
 * last) followed by a 16-bit big-endian length and the bytes.
 */
module ByteCodec {
  import opened Bytes
  import opened Wrappers
  import opened Reader
  import opened Codec

  const CHUNK_SIZE: nat := 1024

  /** The outcome of reading binary data: success, the bytes appended to the output, the bytes consumed. */
  datatype BinaryRead = BinaryRead(ok: bool, appended: ByteString, consumed: nat)

  /** `DecodeBytesWithReader` on the input `s`. */
  function DecodeBytes(s: ByteString): (r: BinaryRead)
    ensures r.consumed <= |s|
    decreases |s|, 1
  {
    if s == [] then BinaryRead(false, [], 0)
    else
      var code: int := s[0];
      var t := s[1..];
      if 0x20 <= code <= 0x2f then
        After(1, ReadBytesChunk(t, code - 0x20, true))
      else if 0x34 <= code <= 0x37 then
        if t == [] then BinaryRead(false, [], 1)
        else After(2, ReadBytesChunk(t[1..], (code - 0x34) * 0x100 + t[0], true))
      else if code == 0x42 || code == 0x41 then
        if |t| < 2 then BinaryRead(false, [], 1)
        else After(3, ReadBytesChunk(t[2..], FromBE(t[..2]), code == 0x42))
      else BinaryRead(false, [], 1)
  }

  /** `ReadBytes` on the input `s`: a chunk of `length` bytes, then, unless it is the last, more binary data. */
  function ReadBytesChunk(s: ByteString, length: nat, isLastChunk: bool): (r: BinaryRead)
    ensures r.consumed <= |s|
    decreases |s|, 0
  {
    if length == 0 then BinaryRead(true, [], 0)
    else if length > |s| then BinaryRead(false, [], 0)
    else if isLastChunk then BinaryRead(true, s[..length], length)
    else After(length, Prepend(s[..length], DecodeBytes(s[length..])))
  }

  /** A read preceded by `n` header bytes. */
  function After(n: nat, r: BinaryRead): BinaryRead {
    r.(consumed := n + r.consumed)
  }

  function Prepend(bytes: ByteString, r: BinaryRead): BinaryRead {
    r.(appended := bytes + r.appended)
  }

  /** `ReadBytes` fails exactly when a non-empty chunk is longer than the input; a last chunk is copied as it is. */
  lemma ReadBytesShape(s: ByteString, length: nat, isLastChunk: bool)
    ensures length == 0 ==> ReadBytesChunk(s, length, isLastChunk) == BinaryRead(true, [], 0)
    ensures length > |s| ==>
      ReadBytesChunk(s, length, isLastChunk) == BinaryRead(false, [], 0)
    ensures 0 < length <= |s| ==>
      var r := ReadBytesChunk(s, length, isLastChunk);
      |r.appended| >= length && r.appended[..length] == s[..length] && r.consumed >= length
    ensures 0 < length <= |s| && isLastChunk ==> ReadBytesChunk(s, length, isLastChunk) == BinaryRead(true, s[..length], length)
  {
  }

  /** A zero-length chunk ends the data even when it is marked as not the last: 41 00 00 reads as empty. */
  lemma EmptyChunkEndsData(rest: ByteString)
    ensures DecodeBytes([0x41, 0x00, 0x00] + rest) == BinaryRead(true, [], 3)
  {
    var s := [0x41, 0x00, 0x00] + rest;
    assert s[1..][..2] == [0x00, 0x00];
    FromBE2(0, 0);
  }

  /** A lead byte that starts no binary form is rejected after consuming only that byte. */
  lemma UnknownLeadFails(code: uint8, rest: ByteString)
    requires !(0x20 <= code <= 0x2f || 0x34 <= code <= 0x37 || code == 0x41 || code == 0x42)
    ensures DecodeBytes([code] + rest) == BinaryRead(false, [], 1)
  {
  }

  // ---------------------------------------------------------------------
  // Encoding

  /** The bytes `Encoder::encode<std::vector<uint8_t>>` writes. */
  function BinaryBytes(data: ByteString): ByteString {
    if |data| < 16 then [0x20 + |data|] + data
    else if |data| < 1024 then [0x34 + |data| / 0x100, |data| % 0x100] + data
    else BinaryChunks(data)
  }

  /** A chunk: its lead byte, the 16-bit big-endian count of its bytes, then the bytes. */
  function Chunk(lead: uint8, bytes: ByteString): (r: ByteString)
    requires |bytes| < 0x1_0000
    ensures |r| == 3 + |bytes|
  {
    [lead] + BE(|bytes|, 2) + bytes
  }

  /** Full 'A' chunks while more than 1024 bytes remain, then a last 'B' chunk if any remain. */
  function BinaryChunks(data: ByteString): ByteString {
    if |data| > CHUNK_SIZE then Chunk(0x41, data[..CHUNK_SIZE]) + BinaryChunks(data[CHUNK_SIZE..])
    else if |data| > 0 then Chunk(0x42, data)
    else []
  }

  /** The form is chosen by size; exactly 1024 bytes make one last chunk `42 04 00`. */
  lemma BinaryForms(data: ByteString)
    ensures |data| < 16 ==> BinaryBytes(data)[0] == 0x20 + |data|
    ensures 16 <= |data| < 1024 ==> 0x34 <= BinaryBytes(data)[0] <= 0x37
    ensures |data| > 1024 ==> BinaryBytes(data)[..3] == [0x41, 0x04, 0x00]
    ensures |data| == 1024 ==> BinaryBytes(data) == [0x42, 0x04, 0x00] + data
  {
    if |data| >= 1024 {
      assert BE(CHUNK_SIZE, 2) == [0x04, 0x00];
    }
  }

  /** The size of the last chunk of `n` bytes: what is left after the full chunks, and never zero. */
  function LastChunkSize(n: nat): (k: nat)
    requires n > 0
    ensures 0 < k <= CHUNK_SIZE && k <= n
  {
    if n > CHUNK_SIZE then LastChunkSize(n - CHUNK_SIZE) else n
  }

  /** Every chunk sequence ends with a last 'B' chunk holding the last 1 to 1024 bytes. */
  lemma {:induction false} LastChunkNotEmpty(data: ByteString) returns (full: ByteString)
    requires |data| > 0
    ensures BinaryChunks(data) == full + Chunk(0x42, data[|data| - LastChunkSize(|data|)..])
    decreases |data|
  {
    var k := LastChunkSize(|data|);
    if |data| > CHUNK_SIZE {
      var tail := data[CHUNK_SIZE..];
      var rest := LastChunkNotEmpty(tail);
      assert LastChunkSize(|tail|) == k;
      assert tail[|tail| - k..] == data[|data| - k..];
      assert BinaryChunks(data) == Chunk(0x41, data[..CHUNK_SIZE]) + BinaryChunks(tail);
      full := Chunk(0x41, data[..CHUNK_SIZE]) + rest;
      AppendAssoc(Chunk(0x41, data[..CHUNK_SIZE]), rest, Chunk(0x42, data[|data| - k..]));
    } else {
      assert data[|data| - k..] == data;
      full := [];
    }
  }

  /** Decoding the encoding of any byte string gives it back and stops at its end. */
  lemma BinaryRoundTrip(data: ByteString, rest: ByteString)
    ensures DecodeBytes(BinaryBytes(data) + rest) == BinaryRead(true, data, |BinaryBytes(data)|)
  {
    if |data| < 16 {
      ShortBinaryRoundTrip(data, rest);
    } else if |data| < 1024 {
      MediumBinaryRoundTrip(data, rest);
    } else {
      ChunksRoundTrip(data, rest);
    }
  }

  lemma ShortBinaryRoundTrip(data: ByteString, rest: ByteString)
    requires |data| < 16
    ensures DecodeBytes([0x20 + |data|] + data + rest) == BinaryRead(true, data, |data| + 1)
  {
    var s := [0x20 + |data|] + data + rest;
    assert s[1..] == data + rest;
    assert (data + rest)[..|data|] == data;
  }

  lemma MediumBinaryRoundTrip(data: ByteString, rest: ByteString)
    requires 16 <= |data| < 1024
    ensures DecodeBytes([0x34 + |data| / 0x100, |data| % 0x100] + data + rest) == BinaryRead(true, data, |data| + 2)
  {
    var n := |data|;
    var s := [0x34 + n / 0x100, n % 0x100] + data + rest;
    assert s[1..][0] == n % 0x100;
    assert s[1..][1..] == data + rest;
    assert (s[0] - 0x34) * 0x100 + n % 0x100 == n;
    assert (data + rest)[..n] == data;
  }

  /** A chunk is read back: a last one ends the data, any other is followed by more binary data. */
  lemma ChunkRead(lead: uint8, bytes: ByteString, after: ByteString)
    requires lead == 0x41 || lead == 0x42
    requires 0 < |bytes| < 0x1_0000
    ensures DecodeBytes(Chunk(lead, bytes) + after) ==
      After(3 + |bytes|, if lead == 0x42 then BinaryRead(true, bytes, 0) else Prepend(bytes, DecodeBytes(after)))
  {
    var header := [lead] + BE(|bytes|, 2);
    var body := bytes + after;
    AppendAssoc(header, bytes, after);
    var s := header + body;
    assert s[1..][..2] == BE(|bytes|, 2);
    assert s[1..][2..] == body;
    FromBEOfBE(|bytes|, 2);
    PowerValues();
    AppendParts(bytes, after);
  }

  lemma {:induction false} ChunksRoundTrip(data: ByteString, rest: ByteString)
    requires |data| > 0
    ensures DecodeBytes(BinaryChunks(data) + rest) == BinaryRead(true, data, |BinaryChunks(data)|)
    decreases |data|
  {
    if |data| > CHUNK_SIZE {
      var head, tail := data[..CHUNK_SIZE], data[CHUNK_SIZE..];
      ChunksRoundTrip(tail, rest);
      AppendAssoc(Chunk(0x41, head), BinaryChunks(tail), rest);
      ChunkRead(0x41, head, BinaryChunks(tail) + rest);
      SplitAt(data, CHUNK_SIZE);
    } else {
      ChunkRead(0x42, data, rest);
    }
  }

  // ---------------------------------------------------------------------
  // Methods

  /** `DecodeBytesWithReader`: reads binary data from the reader, appending it to `output`. */
  method DecodeBytesWithReader(output: ByteString, reader: StringReader) returns (ok: bool, out: ByteString)
    requires reader.Valid()
    modifies reader
    ensures reader.Valid()
    ensures var r := DecodeBytes(old(reader.Rest()));
      ok == r.ok && out == output + r.appended && reader.pos == old(reader.pos) + r.consumed
    decreases reader.ByteAvailable(), 1
  {
    ghost var s := reader.Rest();
    var _, code := reader.Read();
    ghost var t := reader.Rest();
    assert s != [] ==> code == s[0] && t == s[1..];
    out := output;
    if 0x20 <= code <= 0x2f {
      ok, out := ReadBytes(out, reader, code - 0x20, true);
      return;
    }
    if 0x34 <= code <= 0x37 {
      var got, b0 := reader.Read();
      if !got {
        return false, out;
      }
      ok, out := ReadBytes(out, reader, (code as int - 0x34) * 0x100 + b0, true);
      return;
    }
    if code == 0x42 {
      var got, len := reader.ReadBE(2);
      if !got {
        return false, out;
      }
      ok, out := ReadBytes(out, reader, len, true);
      return;
    }
    if code == 0x41 {
      var got, len := reader.ReadBE(2);
      if !got {
        return false, out;
      }
      ok, out := ReadBytes(out, reader, len, false);
      return;
    }
    return false, out;
  }

  /** `ReadBytes`: appends a chunk of `length` bytes to `output`, then reads on unless it is the last chunk. */
  method ReadBytes(output: ByteString, reader: StringReader, length: nat, isLastChunk: bool)
    returns (ok: bool, out: ByteString)
    requires reader.Valid()
    modifies reader
    ensures reader.Valid()
    ensures var r := ReadBytesChunk(old(reader.Rest()), length, isLastChunk);
      ok == r.ok && out == output + r.appended && reader.pos == old(reader.pos) + r.consumed
    decreases reader.ByteAvailable(), 0
  {
    if length == 0 {
      return true, output;
    }
    if length > reader.ByteAvailable() {
      return false, output;
    }
    ghost var s := reader.Rest();
    var chunk := reader.ReadNBytes(length);
    out := output + chunk;
    if isLastChunk {
      return true, out;
    }
    ok, out := DecodeBytesWithReader(out, reader);
    assert s[length..] == old(reader.Rest())[length..];
  }

  /** `Decoder::decode<std::vector<uint8_t>>`: the binary data, or null if it is malformed or cut short. */
  method DecodeBinary(d: Decoder) returns (r: Option<ByteString>)
    requires d.Valid()
    modifies d.reader
    ensures d.Valid()
    ensures var spec := DecodeBytes(old(d.reader.Rest()));
      r == (if spec.ok then Some(spec.appended) else None) && d.reader.pos == old(d.reader.pos) + spec.consumed
  {
    var ok, out := DecodeBytesWithReader([], d.reader);
    if !ok {
      return None;
    }
    assert out == DecodeBytes(old(d.reader.Rest())).appended;
    return Some(out);
  }

  /** One full chunk taken off the data still to be written. */
  lemma ChunkStep(data: ByteString, offset: nat)
    requires offset + CHUNK_SIZE < |data|
    ensures BinaryChunks(data[offset..]) ==
      Chunk(0x41, data[offset..offset + CHUNK_SIZE]) + BinaryChunks(data[offset + CHUNK_SIZE..])
  {
    assert data[offset..][..CHUNK_SIZE] == data[offset..offset + CHUNK_SIZE];
    assert data[offset..][CHUNK_SIZE..] == data[offset + CHUNK_SIZE..];
  }

  /** Appending one full chunk keeps the loop's account of what remains to be written. */
  lemma FullChunkWritten(written: ByteString, start: ByteString, data: ByteString, offset: nat)
    requires offset + CHUNK_SIZE < |data|
    requires written + BinaryChunks(data[offset..]) == start + BinaryChunks(data)
    ensures (written + Chunk(0x41, data[offset..offset + CHUNK_SIZE]))
      + BinaryChunks(data[offset + CHUNK_SIZE..]) == start + BinaryChunks(data)
  {
    ChunkStep(data, offset);
    AppendAssoc(written, Chunk(0x41, data[offset..offset + CHUNK_SIZE]), BinaryChunks(data[offset + CHUNK_SIZE..]));
  }

  /** Appending the final chunk completes the encoding. */
  lemma LastChunkWritten(written: ByteString, start: ByteString, data: ByteString, offset: nat)
    requires offset < |data| <= offset + CHUNK_SIZE
    requires written + BinaryChunks(data[offset..]) == start + BinaryChunks(data)
    ensures written + Chunk(0x42, data[offset..]) == start + BinaryChunks(data)
  {
    assert BinaryChunks(data[offset..]) == Chunk(0x42, data[offset..]);
  }

  /** The three writes of one chunk: the lead byte, the 16-bit length, the bytes. */
  method WriteChunk(e: Encoder, lead: uint8, bytes: ByteString)
    requires |bytes| < 0x1_0000
    modifies e.writer
    ensures e.writer.data == old(e.writer.data) + Chunk(lead, bytes)
  {
    PowerValues();
    e.writer.WriteByte(lead);
    e.writer.WriteBE(|bytes|, 2);
    e.writer.RawWriteView(bytes);
  }

  /** `Encoder::encode<std::vector<uint8_t>>`: appends the encoding of `data`; never fails. */
  method EncodeBinary(e: Encoder, data: ByteString) returns (ok: bool)
    modifies e.writer
    ensures e.writer.data == old(e.writer.data) + BinaryBytes(data)
    ensures ok
  {
    var size := |data|;
    ghost var out := e.writer.data;
    PowerValues();
    if size < 16 {
      e.writer.WriteByte(0x20 + size);
      e.writer.RawWriteView(data);
      assert e.writer.data == out + ([0x20 + size] + data);
      return true;
    }
    if size < 1024 {
      e.writer.WriteByte(0x34 + size / 0x100);
      e.writer.WriteByte(size);
      e.writer.RawWriteView(data);
      assert e.writer.data == out + ([0x34 + size / 0x100, size % 0x100] + data);
      return true;
    }
    var offset := 0;
    assert data[offset..] == data;
    while size > CHUNK_SIZE
      invariant offset + size == |data| && size >= 1
      invariant e.writer.data + BinaryChunks(data[offset..]) == out + BinaryChunks(data)
      decreases size
    {
      ghost var before := e.writer.data;
      WriteChunk(e, 0x41, data[offset..offset + CHUNK_SIZE]);
      size := size - CHUNK_SIZE;
      FullChunkWritten(before, out, data, offset);
      offset := offset + CHUNK_SIZE;
    }
    if size > 0 {
      ghost var before := e.writer.data;
      WriteChunk(e, 0x42, data[offset..]);
      LastChunkWritten(before, out, data, offset);
    }
    return true;
  }
}
