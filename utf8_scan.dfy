/**
 * The loops of the string codec that walk UTF-8 text byte by byte: the
 * encoder's character count with its chunk offsets, the rewrite of
 * four-byte characters, and the decoder's loose count. Each is proved
 * against the functions of `Utf8`.
 */
module Utf8Scan {
  import opened Bytes
  import opened Wrappers
  import opened Utf8

  // ---------------------------------------------------------------------
  // Chunk offsets

  /**
   * The byte offsets the encoder's count records for the text from `off`,
   * which holds `length` characters: the end of every full chunk of `size`
   * characters, then the end of the text when a partial chunk remains. The
   * encoder's chunks are of `StringChunkSize()` characters; the lemmas hold
   * for any size.
   */
  function ChunkEnds(s: ByteString, off: nat, length: nat, size: nat): seq<nat>
    requires off <= |s| && size > 0
    decreases length
  {
    if length == 0 then []
    else if length <= size then [|s|]
    else match CharsLength(s, off, size)
      case None => []
      case Some(k) => [off + k] + ChunkEnds(s, off + k, length - size, size)
  }

  /** The number of chunks of `size` that `length` characters start. */
  function ChunkCount(length: nat, size: nat): nat
    requires size > 0
    decreases length
  {
    if length == 0 then 0
    else if length <= size then 1
    else 1 + ChunkCount(length - size, size)
  }

  /**
   * For a valid text the offsets are one per started chunk, strictly
   * increasing, past `off`, and the last is the end of the text.
   */
  lemma {:induction false} ChunkEndsShape(s: ByteString, off: nat, length: nat, size: nat)
    requires off <= |s| && size > 0 && CountFrom(s, off) == Some(length)
    ensures |ChunkEnds(s, off, length, size)| == ChunkCount(length, size)
    ensures forall i :: 0 <= i < |ChunkEnds(s, off, length, size)| ==> off < ChunkEnds(s, off, length, size)[i] <= |s|
    ensures forall i, j :: 0 <= i < j < |ChunkEnds(s, off, length, size)| ==> ChunkEnds(s, off, length, size)[i] < ChunkEnds(s, off, length, size)[j]
    ensures length > 0 ==> ChunkEnds(s, off, length, size)[|ChunkEnds(s, off, length, size)| - 1] == |s|
    decreases length
  {
    var r := ChunkEnds(s, off, length, size);
    if length == 0 {
    } else if length <= size {
      assert off < |s|;
    } else {
      CountSplit(s, off, size);
      var k := CharsLength(s, off, size).value;
      var next := off + k;
      var remaining := length - size;
      assert CountFrom(s, next) == Some(remaining);
      ChunkEndsShape(s, next, remaining, size);
      ChunkFilledMore(s, off, k, length, size);
      var tail := ChunkEnds(s, next, remaining, size);
      assert r == [next] + tail;
      EndsCons(off, |s|, next, tail, r);
    }
  }

  /** Offsets after `off` that increase stay so with one more offset in front. */
  lemma EndsCons(off: nat, bound: nat, next: nat, tail: seq<nat>, r: seq<nat>)
    requires r == [next] + tail && off < next <= bound
    requires forall i :: 0 <= i < |tail| ==> next < tail[i] <= bound
    requires forall i, j :: 0 <= i < j < |tail| ==> tail[i] < tail[j]
    ensures forall i :: 0 <= i < |r| ==> off < r[i] <= bound
    ensures forall i, j :: 0 <= i < j < |r| ==> r[i] < r[j]
  {
    forall i, j | 0 <= i < j < |r|
      ensures r[i] < r[j]
    {
      assert r[j] == tail[j - 1];
      if i > 0 {
        assert r[i] == tail[i - 1];
      }
    }
  }

  /** The count of a text that starts with a valid character of `n` bytes. */
  lemma CountAfterChar(s: ByteString, raw: nat, n: nat)
    requires raw < |s| && n == CharLength(s[raw]) && n != 0 && raw + n <= |s|
    ensures CountFrom(s, raw) == match CountFrom(s, raw + n) case None => None case Some(r) => Some(r + 1)
  {
  }

  /** One more character of `n` bytes at `raw` extends the characters counted from `start`. */
  lemma CharsLengthOneMore(s: ByteString, start: nat, m: nat, raw: nat, n: nat)
    requires start <= raw < |s| && n == CharLength(s[raw]) && n != 0 && raw + n <= |s|
    requires CharsLength(s, start, m) == Some(raw - start)
    ensures CharsLength(s, start, m + 1) == Some(raw + n - start)
  {
    CharsLengthAdd(s, start, m, 1);
    assert CharsLength(s, raw + n, 0) == Some(0);
  }

  /** A text with no characters left is at its end. */
  lemma CountZero(s: ByteString, off: nat)
    requires off <= |s| && CountFrom(s, off) == Some(0)
    ensures off == |s|
  {
  }

  /** A full chunk of `k` bytes followed by more characters: its end is recorded, then the offsets of the rest. */
  lemma ChunkFilledMore(s: ByteString, start: nat, k: nat, length: nat, size: nat)
    requires start <= |s| && size > 0 && CharsLength(s, start, size) == Some(k) && length > size
    ensures ChunkEnds(s, start, length, size) == [start + k] + ChunkEnds(s, start + k, length - size, size)
    ensures ChunkEnds(s, start, length, size)[0] == start + k
    ensures ChunkEnds(s, start, length, size)[1..] == ChunkEnds(s, start + k, length - size, size)
  {
  }

  /** A full chunk that ends the text: its end is the only offset. */
  lemma ChunkFilledLast(s: ByteString, start: nat, size: nat)
    requires start <= |s| && size > 0
    ensures ChunkEnds(s, start, size, size) == [|s|]
  {
  }

  /** A full chunk ending at `next`, followed by `r` more characters. */
  lemma ChunkFilled(s: ByteString, start: nat, size: nat, next: nat, r: nat, length: nat)
    requires start <= next <= |s| && size > 0 && CharsLength(s, start, size) == Some(next - start)
    requires CountFrom(s, next) == Some(r) && length == size + r
    ensures ChunkEnds(s, start, length, size) == [next] + ChunkEnds(s, next, r, size)
  {
    if r > 0 {
      ChunkFilledMore(s, start, next - start, length, size);
      assert length - size == r;
    } else {
      CountZero(s, next);
      ChunkFilledLast(s, start, size);
      assert ChunkEnds(s, next, 0, size) == [];
    }
  }

  /**
   * What the encoder's count knows after reading the first `raw` bytes of
   * `s`: `count` characters, the last `current` of them in the chunk that
   * began at `start`, and the offsets `ends` recorded for the chunks filled
   * so far, which with the offsets still to come are those of the text.
   */
  ghost predicate ChunkScan(s: ByteString, size: nat, raw: nat, count: nat, start: nat, current: nat, ends: seq<nat>)
  {
    start <= raw <= |s| && current < size &&
    CountFrom(s, 0) == (match CountFrom(s, raw) case None => None case Some(r) => Some(r + count)) &&
    CharsLength(s, start, current) == Some(raw - start) &&
    (CountFrom(s, raw).Some? ==>
      ends + ChunkEnds(s, start, current + CountFrom(s, raw).value, size) == ChunkEnds(s, 0, count + CountFrom(s, raw).value, size))
  }

  /** A character that does not fill the chunk keeps the recorded offsets. */
  lemma ScanWithin(s: ByteString, size: nat, raw: nat, count: nat, start: nat, current: nat, ends: seq<nat>, n: nat,
    nextRaw: nat, nextCount: nat, nextCurrent: nat)
    requires ChunkScan(s, size, raw, count, start, current, ends)
    requires raw < |s| && n == CharLength(s[raw]) && n != 0 && raw + n <= |s| && current + 1 < size
    requires nextRaw == raw + n && nextCount == count + 1 && nextCurrent == current + 1
    ensures ChunkScan(s, size, nextRaw, nextCount, start, nextCurrent, ends)
  {
    CountAfterChar(s, raw, n);
    CharsLengthOneMore(s, start, current, raw, n);
    if CountFrom(s, nextRaw).Some? {
      var r := CountFrom(s, nextRaw).value;
      var before := r + 1;
      assert CountFrom(s, raw) == Some(before);
      assert current + before == nextCurrent + r && count + before == nextCount + r;
    }
  }

  /** A character that fills the chunk records the offset after it and starts a new chunk there. */
  lemma ScanFills(s: ByteString, size: nat, raw: nat, count: nat, start: nat, current: nat, ends: seq<nat>, n: nat,
    nextRaw: nat, nextCount: nat)
    requires ChunkScan(s, size, raw, count, start, current, ends)
    requires raw < |s| && n == CharLength(s[raw]) && n != 0 && raw + n <= |s| && current + 1 == size
    requires nextRaw == raw + n && nextCount == count + 1
    ensures ChunkScan(s, size, nextRaw, nextCount, nextRaw, 0, ends + [nextRaw])
  {
    CountAfterChar(s, raw, n);
    CharsLengthOneMore(s, start, current, raw, n);
    var k := nextRaw - start;
    if CountFrom(s, nextRaw).Some? {
      var r := CountFrom(s, nextRaw).value;
      var before := r + 1;
      var length := size + r;
      assert CountFrom(s, raw) == Some(before);
      assert current + before == length && count + before == nextCount + r;
      ChunkFilled(s, start, size, nextRaw, r, length);
      AppendAssoc(ends, [nextRaw], ChunkEnds(s, nextRaw, r, size));
    }
  }

  /** The four-byte characters found so far, and those still to come after the next character. */
  lemma FoursSeen(s: ByteString, raw: nat, n: nat, four: seq<nat>, nextFour: seq<nat>)
    requires raw < |s| && n == CharLength(s[raw]) && n != 0 && raw + n <= |s|
    requires FourStartsFrom(s, 0) == four + FourStartsFrom(s, raw)
    requires nextFour == if n == 4 then four + [raw] else four
    ensures FourStartsFrom(s, 0) == nextFour + FourStartsFrom(s, raw + n)
  {
    FourStep(s, raw);
    AppendAssoc(four, if n == 4 then [raw] else [], FourStartsFrom(s, raw + n));
  }

  /** At the end of the text the offsets of a partial chunk end with the end of the text. */
  lemma ScanDone(s: ByteString, size: nat, count: nat, start: nat, current: nat, ends: seq<nat>)
    requires ChunkScan(s, size, |s|, count, start, current, ends)
    ensures CountFrom(s, 0) == Some(count)
    ensures ChunkEnds(s, 0, count, size) == if current > 0 then ends + [|s|] else ends
  {
    assert CountFrom(s, |s|) == Some(0);
    if current == 0 {
      assert ChunkEnds(s, start, 0, size) == [];
    } else {
      assert ChunkEnds(s, start, current, size) == [|s|];
    }
  }

  /**
   * The first `getUtf8StringLength`: the number of characters of `text`, or -1
   * if a lead byte is invalid or a character runs past the end; with the
   * offsets where the chunks of 32768 characters end and the offsets of the
   * four-byte characters.
   */
  method Utf8StringLength(text: ByteString) returns (length: int, perChunk: seq<nat>, four: seq<nat>)
    ensures length == -1 <==> CountFrom(text, 0).None?
    ensures length != -1 ==>
      length == CountFrom(text, 0).value && perChunk == ChunkEnds(text, 0, length, StringChunkSize()) && four == FourStartsFrom(text, 0)
  {
    var chunkSize := StringChunkSize();
    var utf8Length: nat := 0;
    var raw: nat := 0;
    var currentChunk: nat := 0;
    ghost var chunkStart: nat := 0;
    perChunk, four := [], [];
    while raw < |text|
      invariant ChunkScan(text, chunkSize, raw, utf8Length, chunkStart, currentChunk, perChunk)
      invariant FourStartsFrom(text, 0) == four + FourStartsFrom(text, raw)
      decreases |text| - raw
    {
      var code := text[raw];
      CharLengthTable(code);
      var charLength := UTF_8_CHAR_LENGTHS[code / 8];
      if charLength == 0 || raw + charLength > |text| {
        return -1, perChunk, four;
      }
      var nextRaw := raw + charLength;
      var nextLength := utf8Length + 1;
      ghost var seen := four;
      if charLength == 4 {
        four := four + [raw];
      }
      FoursSeen(text, raw, charLength, seen, four);
      if currentChunk + 1 == chunkSize {
        ScanFills(text, chunkSize, raw, utf8Length, chunkStart, currentChunk, perChunk, charLength, nextRaw, nextLength);
        perChunk := perChunk + [nextRaw];
        currentChunk := 0;
        chunkStart := nextRaw;
      } else {
        var nextChunk := currentChunk + 1;
        ScanWithin(text, chunkSize, raw, utf8Length, chunkStart, currentChunk, perChunk, charLength,
          nextRaw, nextLength, nextChunk);
        currentChunk := nextChunk;
      }
      utf8Length := nextLength;
      raw := nextRaw;
    }
    ScanDone(text, chunkSize, utf8Length, chunkStart, currentChunk, perChunk);
    if currentChunk > 0 {
      perChunk := perChunk + [raw];
    }
    return utf8Length, perChunk, four;
  }

  // ---------------------------------------------------------------------
  // The rewrite

  /**
   * One turn of the rewrite loop from a boundary `lastPos`: the text up to
   * the next four-byte character is copied; the character is replaced by its
   * surrogate bytes, or the whole rewrite fails when its code point is out of
   * range.
   */
  lemma RewriteFourAt(s: ByteString, lastPos: nat, out: ByteString, pos: nat, next: nat)
    requires lastPos <= |s| && CountFrom(s, lastPos).Some? && FourStartsFrom(s, lastPos) != []
    requires RewrittenFrom(s, 0) == PrependOpt(out, RewrittenFrom(s, lastPos))
    requires pos == FourStartsFrom(s, lastPos)[0] && next == pos + 4
    ensures lastPos <= pos && next <= |s| && CountFrom(s, next).Some?
    ensures FourStartsFrom(s, next) == FourStartsFrom(s, lastPos)[1..]
    ensures var cp := CodePoint(s[pos], s[pos + 1], s[pos + 2], s[pos + 3]);
      (cp < 0x1_0000 || cp > 0x10_FFFF ==> RewrittenFrom(s, 0) == None) &&
      (0x1_0000 <= cp <= 0x10_FFFF ==>
        RewrittenFrom(s, 0) == PrependOpt(out + s[lastPos..pos] + SurrogateBytes(cp), RewrittenFrom(s, next)))
  {
    FirstFour(s, lastPos);
    CopyUntilFour(s, lastPos);
    PrependOptTwice(out, s[lastPos..pos], RewrittenFrom(s, pos));
    assert RewrittenFrom(s, pos) == FourRewritten(s, pos);
    var cp := CodePoint(s[pos], s[pos + 1], s[pos + 2], s[pos + 3]);
    FourRewrittenAt(s, pos, next, cp);
    if 0x1_0000 <= cp <= 0x10_FFFF {
      PrependOptTwice(out + s[lastPos..pos], SurrogateBytes(cp), RewrittenFrom(s, next));
    }
  }

  /**
   * `rewriteUtf8String`: copies the text between the four-byte characters
   * listed in `four` and replaces each of them by its UTF-16 surrogates,
   * each written as a three-byte character; the empty string when a code
   * point is outside U+10000-U+10FFFF. The surrogate units are computed for
   * every character here; the source keeps them in a `static`, so it
   * computes them only once (see `Utf8.RewrittenStaticFrom`).
   */
  method RewriteUtf8(text: ByteString, four: seq<nat>) returns (out: ByteString)
    requires CountFrom(text, 0).Some? && four == FourStartsFrom(text, 0)
    ensures out == match RewrittenFrom(text, 0) case None => [] case Some(r) => r
  {
    out := [];
    var lastPos: nat := 0;
    var i := 0;
    PrependOptEmpty(RewrittenFrom(text, 0));
    while i < |four|
      invariant i <= |four| && lastPos <= |text|
      invariant CountFrom(text, lastPos).Some? && four[i..] == FourStartsFrom(text, lastPos)
      invariant RewrittenFrom(text, 0) == PrependOpt(out, RewrittenFrom(text, lastPos))
      decreases |four| - i
    {
      var pos := four[i];
      var next := pos + 4;
      RewriteFourAt(text, lastPos, out, pos, next);
      var codePoint := CodePoint(text[pos], text[pos + 1], text[pos + 2], text[pos + 3]);
      if codePoint < 0x1_0000 || codePoint > 0x10_FFFF {
        return [];
      }
      var v := codePoint - 0x1_0000;
      var high, low := 0xD800 + v / 0x400, 0xDC00 + v % 0x400;
      var copied := out + text[lastPos..pos];
      AppendAssoc(copied, Utf8Of16(high), Utf8Of16(low));
      out := copied + Utf8Of16(high) + Utf8Of16(low);
      lastPos := next;
      i := i + 1;
    }
    FourStartsNone(text, lastPos);
    RewriteCopies(text, lastPos);
    out := out + text[lastPos..];
  }

  // ---------------------------------------------------------------------
  // The decoder's loose count

  /**
   * The second `getUtf8StringLength`: the characters that start in `text` and
   * the bytes they take, the last one counted in full even when it runs past
   * the end; (-1, 0) on an invalid lead byte.
   */
  method Utf8LengthLoose(text: ByteString) returns (count: int, raw: nat)
    ensures count == -1 <==> LooseCount(text, 0).None?
    ensures count == -1 ==> raw == 0
    ensures count != -1 ==> count == LooseCount(text, 0).value.0 && raw == LooseCount(text, 0).value.1
  {
    count, raw := 0, 0;
    while raw < |text|
      invariant raw <= |text| ==>
        LooseCount(text, 0) == match LooseCount(text, raw) case None => None case Some(p) => Some((p.0 + count, p.1 + raw))
      invariant raw > |text| ==> LooseCount(text, 0) == Some((count, raw))
      invariant count >= 0
      decreases |text| - raw
    {
      var code := text[raw];
      CharLengthTable(code);
      var charLength := UTF_8_CHAR_LENGTHS[code / 8];
      if charLength == 0 {
        return -1, 0;
      }
      count := count + 1;
      raw := raw + charLength;
    }
  }
}
