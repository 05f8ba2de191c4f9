/**
 * The UTF-8 reasoning of the string codec. Characters are recognised by
 * their lead byte alone: the top five bits give the character's length, and
 * continuation bytes are never examined. Positions are byte offsets into one
 * string; the functions here look at the string from an offset onwards.
 */
module Utf8 {
  import opened Bytes
  import opened Wrappers

  /** `UTF_8_CHAR_LENGTHS`: character length by the top five bits of the lead byte; 0 marks a byte that starts no character. */
  const UTF_8_CHAR_LENGTHS: seq<nat> :=
    [1, 1, 1, 1, 1, 1, 1, 1, 1, 1, 1, 1, 1, 1, 1, 1, 0, 0, 0, 0, 0, 0, 0, 0, 2, 2, 2, 2, 3, 3, 4, 0]

  /**
   * `STRING_CHUNK_SIZE`: the most characters one string chunk holds. A
   * function rather than a constant, so that the verifier does not unfold a
   * count of this many characters one character at a time.
   */
  function StringChunkSize(): nat { 32768 }

  /**
   * The length of the character whose lead byte is `code`, by the UTF-8 bit
   * patterns: 0xxxxxxx, 110xxxxx, 1110xxxx and 11110xxx start characters of
   * one to four bytes; continuation bytes 10xxxxxx and 11111xxx start none.
   */
  function CharLength(code: uint8): (n: nat)
    ensures n <= 4
  {
    if code < 0x80 then 1
    else if code < 0xc0 then 0
    else if code < 0xe0 then 2
    else if code < 0xf0 then 3
    else if code < 0xf8 then 4
    else 0
  }

  /** The lookup `UTF_8_CHAR_LENGTHS[code >> 3]` gives the same length for every byte. */
  lemma CharLengthTable(code: uint8)
    ensures UTF_8_CHAR_LENGTHS[code / 8] == CharLength(code)
  {
    var i := code / 8;
    assert code < 0x80 <==> i < 16;
    assert 0xc0 <= code < 0xe0 <==> 24 <= i < 28;
    assert 0xe0 <= code < 0xf0 <==> 28 <= i < 30;
    assert 0xf0 <= code < 0xf8 <==> i == 30;
  }

  /** The number of characters from `off` to the end, or None if a lead byte is invalid or a character runs past the end. */
  function CountFrom(s: ByteString, off: nat): (r: Option<nat>)
    requires off <= |s|
    ensures r.Some? ==> r.value <= |s| - off
    decreases |s| - off
  {
    if off == |s| then Some(0)
    else
      var n := CharLength(s[off]);
      if n == 0 || off + n > |s| then None
      else match CountFrom(s, off + n)
        case None => None
        case Some(k) => Some(k + 1)
  }

  /** The number of bytes taken by the `n` characters from `off`, or None if they are not all there. */
  function CharsLength(s: ByteString, off: nat, n: nat): (r: Option<nat>)
    requires off <= |s|
    ensures r.Some? ==> n <= r.value <= |s| - off
    decreases n
  {
    if n == 0 then Some(0)
    else if off == |s| then None
    else
      var c := CharLength(s[off]);
      if c == 0 || off + c > |s| then None
      else match CharsLength(s, off + c, n - 1)
        case None => None
        case Some(k) => Some(k + c)
  }

  /**
   * The count of the second `getUtf8StringLength`: characters and bytes from
   * `off`, where the last character may run past the end (its full length is
   * counted); None for an invalid lead byte.
   */
  function LooseCount(s: ByteString, off: nat): (r: Option<(nat, nat)>)
    requires off <= |s|
    ensures r.Some? ==> r.value.0 <= |s| - off && r.value.1 >= |s| - off
    ensures r.Some? && off < |s| ==> r.value.0 >= 1
    decreases |s| - off
  {
    if off == |s| then Some((0, 0))
    else
      var c := CharLength(s[off]);
      if c == 0 then None
      else if off + c >= |s| then Some((1, c))
      else match LooseCount(s, off + c)
        case None => None
        case Some(p) => Some((p.0 + 1, p.1 + c))
  }

  /** The offsets of the four-byte characters from `off` on, in order, as far as the characters are valid. */
  function FourStartsFrom(s: ByteString, off: nat): (r: seq<nat>)
    requires off <= |s|
    decreases |s| - off
  {
    if off == |s| then []
    else
      var n := CharLength(s[off]);
      if n == 0 || off + n > |s| then []
      else (if n == 4 then [off] else []) + FourStartsFrom(s, off + n)
  }

  // ---------------------------------------------------------------------
  // Counting lemmas

  /** The counts depend only on the bytes from the offset on. */
  lemma {:induction false} CountLocal(s: ByteString, off: nat, t: ByteString, toff: nat)
    requires off <= |s| && toff <= |t| && s[off..] == t[toff..]
    ensures CountFrom(s, off) == CountFrom(t, toff)
    ensures |FourStartsFrom(s, off)| == |FourStartsFrom(t, toff)|
    decreases |s| - off
  {
    if off < |s| {
      assert s[off] == s[off..][0] == t[toff];
      var n := CharLength(s[off]);
      if n != 0 && off + n <= |s| {
        assert s[off + n..] == s[off..][n..] == t[toff..][n..] == t[toff + n..];
        CountLocal(s, off + n, t, toff + n);
      }
    }
  }

  lemma {:induction false} CharsLengthLocal(s: ByteString, off: nat, t: ByteString, toff: nat, n: nat)
    requires off <= |s| && toff <= |t| && s[off..] == t[toff..]
    ensures CharsLength(s, off, n) == CharsLength(t, toff, n)
    decreases n
  {
    if n > 0 && off < |s| {
      assert s[off] == s[off..][0] == t[toff];
      var c := CharLength(s[off]);
      if c != 0 && off + c <= |s| {
        assert s[off + c..] == s[off..][c..] == t[toff..][c..] == t[toff + c..];
        CharsLengthLocal(s, off + c, t, toff + c, n - 1);
      }
    }
  }

  /** The bytes of `a + b` characters are those of the first `a`, then of the next `b`. */
  lemma {:induction false} CharsLengthAdd(s: ByteString, off: nat, a: nat, b: nat)
    requires off <= |s| && CharsLength(s, off, a).Some?
    ensures CharsLength(s, off, a + b) ==
      match CharsLength(s, off + CharsLength(s, off, a).value, b)
      case None => None
      case Some(k) => Some(CharsLength(s, off, a).value + k)
    decreases a
  {
    if a > 0 {
      var c := CharLength(s[off]);
      CharsLengthAdd(s, off + c, a - 1, b);
    }
  }

  /** A text of `m` characters: its first `j` characters end at a character boundary, with `m - j` characters after it. */
  lemma {:induction false} CountSplit(s: ByteString, off: nat, j: nat)
    requires off <= |s| && CountFrom(s, off).Some? && j <= CountFrom(s, off).value
    ensures CharsLength(s, off, j).Some?
    ensures CountFrom(s, off + CharsLength(s, off, j).value) == Some(CountFrom(s, off).value - j)
    decreases j
  {
    if j > 0 {
      var c := CharLength(s[off]);
      CountSplit(s, off + c, j - 1);
    }
  }

  /** The characters from `off` are those of the text that starts there. */
  lemma CountDrop(s: ByteString, off: nat)
    requires off <= |s|
    ensures CountFrom(s, off) == CountFrom(s[off..], 0)
  {
    assert s[off..][0..] == s[off..];
    CountLocal(s, off, s[off..], 0);
  }

  /** After the first `j` characters of a valid text, the rest is valid and holds the other characters. */
  lemma CountDropSplit(s: ByteString, n: nat, j: nat) returns (k: nat)
    requires CountFrom(s, 0) == Some(n) && j <= n
    ensures CharsLength(s, 0, j) == Some(k) && k <= |s|
    ensures CountFrom(s[k..], 0) == Some(n - j)
  {
    CountSplit(s, 0, j);
    k := CharsLength(s, 0, j).value;
    CountDrop(s, k);
  }

  /** All the characters of a valid text span it to the end. */
  lemma CountSpans(s: ByteString, off: nat)
    requires off <= |s| && CountFrom(s, off).Some?
    ensures CharsLength(s, off, CountFrom(s, off).value) == Some(|s| - off)
  {
    var m := CountFrom(s, off).value;
    CountSplit(s, off, m);
    var k := CharsLength(s, off, m).value;
    if off + k < |s| {
      assert false;
    }
  }

  /** More characters take strictly more bytes, so chunk boundaries strictly increase. */
  lemma CharsLengthIncreasing(s: ByteString, off: nat, i: nat, j: nat)
    requires off <= |s| && i < j && CharsLength(s, off, j).Some?
    ensures CharsLength(s, off, i).Some? && CharsLength(s, off, i).value < CharsLength(s, off, j).value
  {
    CharsLengthPrefixOf(s, off, i, j - i);
    CharsLengthAdd(s, off, i, j - i);
  }

  /** If `a + b` characters are there, so are the first `a`. */
  lemma {:induction false} CharsLengthPrefixOf(s: ByteString, off: nat, a: nat, b: nat)
    requires off <= |s| && CharsLength(s, off, a + b).Some?
    ensures CharsLength(s, off, a).Some?
    decreases a
  {
    if a > 0 {
      var c := CharLength(s[off]);
      CharsLengthPrefixOf(s, off + c, a - 1, b);
    }
  }

  /** Characters that are all present in `s` are read the same way whatever follows `s`. */
  lemma {:induction false} CharsLengthExtend(s: ByteString, rest: ByteString, off: nat, n: nat)
    requires off <= |s| && CharsLength(s, off, n).Some?
    ensures CharsLength(s + rest, off, n) == CharsLength(s, off, n)
    decreases n
  {
    if n > 0 {
      var c := CharLength(s[off]);
      assert (s + rest)[off] == s[off];
      CharsLengthExtend(s, rest, off + c, n - 1);
    }
  }

  /** Characters that end by `end` are read the same way when the text is cut at `end`. */
  lemma {:induction false} CharsLengthTruncate(s: ByteString, off: nat, n: nat, end: nat)
    requires off <= end <= |s| && CharsLength(s, off, n).Some? && off + CharsLength(s, off, n).value <= end
    ensures CharsLength(s[..end], off, n) == CharsLength(s, off, n)
    decreases n
  {
    if n > 0 {
      var c := CharLength(s[off]);
      assert s[..end][off] == s[off];
      CharsLengthTruncate(s, off + c, n - 1, end);
    }
  }

  // ---------------------------------------------------------------------
  // The loose count of the decoder against the exact one

  /** An invalid lead byte among the bytes scanned means the characters asked for cannot be read. */
  lemma {:induction false} LooseCountNone(s: ByteString, len: nat, off: nat, m: nat)
    requires off <= len <= |s| && m >= len - off
    requires LooseCount(s[..len], off).None?
    ensures CharsLength(s, off, m).None?
    decreases len - off
  {
    var t := s[..len];
    assert t[off] == s[off];
    var c := CharLength(s[off]);
    if c != 0 && off + c < len && off + c <= |s| {
      LooseCountNone(s, len, off + c, m - 1);
    }
  }

  /**
   * The loose count of the first `len` bytes gives the characters that start
   * in them and the bytes those take: exact when those bytes are present, and
   * otherwise the characters asked for cannot be read.
   */
  lemma {:induction false} LooseCountSome(s: ByteString, len: nat, off: nat, m: nat)
    requires off <= len <= |s|
    requires LooseCount(s[..len], off).Some?
    requires m >= LooseCount(s[..len], off).value.0
    ensures var p := LooseCount(s[..len], off).value;
      (off + p.1 <= |s| ==> CharsLength(s, off, p.0) == Some(p.1)) &&
      (off + p.1 > |s| ==> CharsLength(s, off, m).None?)
    decreases len - off
  {
    var t := s[..len];
    if off < len {
      assert t[off] == s[off];
      var c := CharLength(s[off]);
      if off + c < len {
        LooseCountSome(s, len, off + c, m - 1);
      }
    }
  }

  // ---------------------------------------------------------------------
  // Rewriting four-byte characters

  /** The code point of a four-byte character: three bits of the lead byte and six of each continuation byte. */
  function CodePoint(b0: uint8, b1: uint8, b2: uint8, b3: uint8): (cp: nat)
    ensures cp < 0x20_0000
  {
    (b0 % 8) * 0x4_0000 + (b1 % 64) * 0x1000 + (b2 % 64) * 64 + b3 % 64
  }

  /** The three-byte UTF-8 form of a 16-bit unit, written without regard to whether it is a surrogate. */
  function Utf8Of16(u: nat): (r: ByteString)
    requires u < 0x1_0000
    ensures |r| == 3
  {
    [0xE0 + u / 0x1000, 0x80 + (u / 64) % 64, 0x80 + u % 64]
  }

  /**
   * The six bytes a supplementary character is rewritten to, as the Java
   * hessian-lite library writes it: the UTF-16 high and low surrogates, each
   * as a three-byte character.
   */
  function SurrogateBytes(cp: nat): (r: ByteString)
    requires 0x1_0000 <= cp <= 0x10_FFFF
    ensures |r| == 6
  {
    var v := cp - 0x1_0000;
    Utf8Of16(0xD800 + v / 0x400) + Utf8Of16(0xDC00 + v % 0x400)
  }

  /** Both halves of the six bytes are three-byte characters. */
  lemma SurrogateLeads(cp: nat)
    requires 0x1_0000 <= cp <= 0x10_FFFF
    ensures CharLength(SurrogateBytes(cp)[0]) == 3 && CharLength(SurrogateBytes(cp)[3]) == 3
  {
    var v := cp - 0x1_0000;
    assert SurrogateBytes(cp)[0] == Utf8Of16(0xD800 + v / 0x400)[0] == 0xE0 + (0xD800 + v / 0x400) / 0x1000;
    assert SurrogateBytes(cp)[3] == Utf8Of16(0xDC00 + v % 0x400)[0] == 0xE0 + (0xDC00 + v % 0x400) / 0x1000;
  }

  /** The 16-bit unit of a three-byte character. */
  function Unit16(b0: uint8, b1: uint8, b2: uint8): nat {
    (b0 % 16) * 0x1000 + (b1 % 64) * 64 + b2 % 64
  }

  lemma Utf8Of16Inverse(u: nat)
    requires u < 0x1_0000
    ensures var r := Utf8Of16(u); Unit16(r[0], r[1], r[2]) == u
  {
    var r := Utf8Of16(u);
    assert r[0] % 16 == u / 0x1000;
    assert r[1] % 64 == (u / 64) % 64;
    assert r[2] % 64 == u % 64;
  }

  /** The code point a surrogate pair written as six bytes stands for. */
  function CodePointOfSurrogates(b: ByteString): int
    requires |b| == 6
  {
    0x1_0000 + (Unit16(b[0], b[1], b[2]) - 0xD800) * 0x400 + (Unit16(b[3], b[4], b[5]) - 0xDC00)
  }

  /** The six bytes determine the character: distinct characters are rewritten to distinct bytes. */
  lemma SurrogatesInverse(cp: nat)
    requires 0x1_0000 <= cp <= 0x10_FFFF
    ensures CodePointOfSurrogates(SurrogateBytes(cp)) == cp
  {
    var v := cp - 0x1_0000;
    Utf8Of16Inverse(0xD800 + v / 0x400);
    Utf8Of16Inverse(0xDC00 + v % 0x400);
    var b := SurrogateBytes(cp);
    assert b[..3] == Utf8Of16(0xD800 + v / 0x400);
    assert b[3..] == Utf8Of16(0xDC00 + v % 0x400);
  }

  /** Prefixes bytes to a result that may be missing. */
  function PrependOpt(p: ByteString, o: Option<ByteString>): Option<ByteString> {
    match o
    case None => None
    case Some(r) => Some(p + r)
  }

  /**
   * `rewriteUtf8String` on the text from `off`: every four-byte character is
   * replaced by its surrogate bytes and all other characters are copied;
   * None when a four-byte character's code point is outside U+10000-U+10FFFF
   * (or the text is not valid, which the encoder rules out beforehand).
   */
  function RewrittenFrom(s: ByteString, off: nat): Option<ByteString>
    requires off <= |s|
    decreases |s| - off, 1
  {
    if off == |s| then Some([])
    else
      var n := CharLength(s[off]);
      if n == 0 || off + n > |s| then None
      else if n == 4 then FourRewritten(s, off)
      else PrependOpt(s[off..off + n], RewrittenFrom(s, off + n))
  }

  /** The rewrite from a four-byte character at `off`: its surrogate bytes, then the rest. */
  function FourRewritten(s: ByteString, off: nat): Option<ByteString>
    requires off + 4 <= |s|
    decreases |s| - off, 0
  {
    var cp := CodePoint(s[off], s[off + 1], s[off + 2], s[off + 3]);
    if cp < 0x1_0000 || cp > 0x10_FFFF then None
    else PrependOpt(SurrogateBytes(cp), RewrittenFrom(s, off + 4))
  }

  /** The rewrite of a four-byte character at `off`, with the rest taken from `next`, the offset after it. */
  lemma FourRewrittenAt(s: ByteString, off: nat, next: nat, cp: nat)
    requires off + 4 <= |s| && next == off + 4 && cp == CodePoint(s[off], s[off + 1], s[off + 2], s[off + 3])
    ensures cp < 0x1_0000 || cp > 0x10_FFFF ==> FourRewritten(s, off) == None
    ensures 0x1_0000 <= cp <= 0x10_FFFF ==> FourRewritten(s, off) == PrependOpt(SurrogateBytes(cp), RewrittenFrom(s, next))
  {
  }

  /** A character other than a four-byte one is copied, and the rewrite goes on after it. */
  lemma RewriteStep(s: ByteString, off: nat)
    requires off < |s| && CharLength(s[off]) != 0 && CharLength(s[off]) != 4 && off + CharLength(s[off]) <= |s|
    ensures RewrittenFrom(s, off) ==
      PrependOpt(s[off..off + CharLength(s[off])], RewrittenFrom(s, off + CharLength(s[off])))
  {
  }

  /** A valid character other than a four-byte one adds no four-byte offset. */
  lemma FourStep(s: ByteString, off: nat)
    requires off < |s| && CharLength(s[off]) != 0 && off + CharLength(s[off]) <= |s|
    ensures CharLength(s[off]) != 4 ==> FourStartsFrom(s, off) == FourStartsFrom(s, off + CharLength(s[off]))
    ensures CharLength(s[off]) == 4 ==> FourStartsFrom(s, off) == [off] + FourStartsFrom(s, off + 4)
  {
  }

  /**
   * The rewrite as written: the surrogate bytes are held in a function-local
   * `static`, so they are computed for the first supplementary character the
   * process ever rewrites, and every later one is written with those bytes.
   * `pair` is that static once it has been set.
   */
  function RewrittenStaticFrom(s: ByteString, off: nat, pair: Option<ByteString>): Option<ByteString>
    requires off <= |s|
    decreases |s| - off
  {
    if off == |s| then Some([])
    else
      var n := CharLength(s[off]);
      if n == 0 || off + n > |s| then None
      else if n == 4 then
        var cp := CodePoint(s[off], s[off + 1], s[off + 2], s[off + 3]);
        if cp < 0x1_0000 || cp > 0x10_FFFF then None
        else
          var p := if pair.Some? then pair.value else SurrogateBytes(cp);
          PrependOpt(p, RewrittenStaticFrom(s, off + 4, Some(p)))
      else PrependOpt(s[off..off + n], RewrittenStaticFrom(s, off + n, pair))
  }

  /** U+1F600 U+1F601: with the static pair the second character comes out as a copy of the first. */
  lemma StaticPairRepeats()
    ensures var s: ByteString := [0xF0, 0x9F, 0x98, 0x80, 0xF0, 0x9F, 0x98, 0x81];
      RewrittenStaticFrom(s, 0, None) == Some(SurrogateBytes(0x1F600) + SurrogateBytes(0x1F600)) &&
      RewrittenFrom(s, 0) == Some(SurrogateBytes(0x1F600) + SurrogateBytes(0x1F601)) &&
      SurrogateBytes(0x1F600) != SurrogateBytes(0x1F601)
  {
    var s: ByteString := [0xF0, 0x9F, 0x98, 0x80, 0xF0, 0x9F, 0x98, 0x81];
    assert CodePoint(s[0], s[1], s[2], s[3]) == 0x1F600;
    assert CodePoint(s[4], s[5], s[6], s[7]) == 0x1F601;
    assert RewrittenFrom(s, 8) == Some([]);
    assert RewrittenStaticFrom(s, 8, Some(SurrogateBytes(0x1F600))) == Some([]);
    assert SurrogateBytes(0x1F600) + [] == SurrogateBytes(0x1F600);
    assert SurrogateBytes(0x1F601) + [] == SurrogateBytes(0x1F601);
    SurrogatesInverse(0x1F600);
    SurrogatesInverse(0x1F601);
  }

  /** A valid text without four-byte characters is copied unchanged. */
  lemma {:induction false} RewriteCopies(s: ByteString, off: nat)
    requires off <= |s| && CountFrom(s, off).Some? && FourStartsFrom(s, off) == []
    ensures RewrittenFrom(s, off) == Some(s[off..])
    decreases |s| - off
  {
    if off < |s| {
      var n := CharLength(s[off]);
      FourStep(s, off);
      RewriteCopies(s, off + n);
      RewriteStep(s, off);
      assert s[off..off + n] + s[off + n..] == s[off..];
    } else {
      assert s[off..] == [];
    }
  }

  /** Prefixing nothing changes nothing. */
  lemma PrependOptEmpty(o: Option<ByteString>)
    ensures PrependOpt([], o) == o
  {
    if o.Some? {
      assert [] + o.value == o.value;
    }
  }

  /** Prefixing in two steps is prefixing once with both parts. */
  lemma PrependOptTwice(p: ByteString, q: ByteString, o: Option<ByteString>)
    ensures PrependOpt(p, PrependOpt(q, o)) == PrependOpt(p + q, o)
  {
    if o.Some? {
      assert p + (q + o.value) == (p + q) + o.value;
    }
  }

  /**
   * From a boundary `off` of a valid text, the first four-byte offset is a
   * complete four-byte character, the text after it is valid, and the offsets
   * after it are the rest of the list.
   */
  lemma {:induction false} FirstFour(s: ByteString, off: nat)
    requires off <= |s| && CountFrom(s, off).Some? && FourStartsFrom(s, off) != []
    ensures var pos := FourStartsFrom(s, off)[0];
      off <= pos && pos + 4 <= |s| && CharLength(s[pos]) == 4 &&
      FourStartsFrom(s, pos + 4) == FourStartsFrom(s, off)[1..] &&
      CountFrom(s, pos + 4).Some?
    decreases |s| - off
  {
    var n := CharLength(s[off]);
    if n != 4 {
      FirstFour(s, off + n);
    }
  }

  /** Up to the first four-byte character from a boundary `off`, the text is copied unchanged. */
  lemma {:induction false} CopyUntilFour(s: ByteString, off: nat)
    requires off <= |s| && CountFrom(s, off).Some? && FourStartsFrom(s, off) != []
    ensures var pos := FourStartsFrom(s, off)[0];
      off <= pos <= |s| && RewrittenFrom(s, off) == PrependOpt(s[off..pos], RewrittenFrom(s, pos))
    decreases |s| - off
  {
    var pos := FourStartsFrom(s, off)[0];
    var n := CharLength(s[off]);
    FourStep(s, off);
    if n != 4 {
      CopyUntilFour(s, off + n);
      RewriteStep(s, off);
      PrependOptTwice(s[off..off + n], s[off + n..pos], RewrittenFrom(s, pos));
      assert s[off..off + n] + s[off + n..pos] == s[off..pos];
    } else {
      PrependOptEmpty(RewrittenFrom(s, off));
      assert s[off..pos] == [];
    }
  }

  /** The rewrite grows the text by two bytes per four-byte character. */
  lemma {:induction false} RewrittenLength(s: ByteString, off: nat)
    requires off <= |s| && RewrittenFrom(s, off).Some?
    ensures |RewrittenFrom(s, off).value| == |s| - off + 2 * |FourStartsFrom(s, off)|
    decreases |s| - off
  {
    if off < |s| {
      var n := CharLength(s[off]);
      var next := off + n;
      FourStep(s, off);
      if n == 4 {
        var cp := CodePoint(s[off], s[off + 1], s[off + 2], s[off + 3]);
        FourRewrittenAt(s, off, next, cp);
      } else {
        RewriteStep(s, off);
      }
      RewrittenLength(s, next);
    }
  }

  /** A text that starts with one complete character of `n` bytes counts that character and then the rest. */
  lemma OneCharCount(r: ByteString, n: nat, rest: ByteString)
    requires 0 < n <= |r| && CharLength(r[0]) == n && r[n..] == rest
    ensures CountFrom(r, 0) == match CountFrom(rest, 0) case None => None case Some(k) => Some(k + 1)
  {
    CountLocal(r, n, rest, 0);
  }

  /** The same for the four-byte characters of such a text. */
  lemma OneCharFours(r: ByteString, n: nat, rest: ByteString)
    requires 0 < n <= |r| && CharLength(r[0]) == n && r[n..] == rest
    ensures |FourStartsFrom(r, 0)| == (if n == 4 then 1 else 0) + |FourStartsFrom(rest, 0)|
  {
    CountLocal(r, n, rest, 0);
  }

  /**
   * From `off` on, the rewritten text is valid, has no four-byte characters,
   * and has one character more than the original per four-byte character rewritten.
   */
  ghost predicate RewriteCounts(s: ByteString, off: nat)
    requires off <= |s|
  {
    RewrittenFrom(s, off).Some? && CountFrom(s, off).Some? &&
    CountFrom(RewrittenFrom(s, off).value, 0) == Some(CountFrom(s, off).value + |FourStartsFrom(s, off)|) &&
    |FourStartsFrom(RewrittenFrom(s, off).value, 0)| == 0
  }

  /** Wherever the rewrite succeeds, it keeps the counts `RewriteCounts` states. */
  lemma {:induction false} RewrittenCount(s: ByteString, off: nat)
    requires off <= |s| && RewrittenFrom(s, off).Some?
    ensures CountFrom(s, off).Some?
    ensures CountFrom(RewrittenFrom(s, off).value, 0) == Some(CountFrom(s, off).value + |FourStartsFrom(s, off)|)
    ensures |FourStartsFrom(RewrittenFrom(s, off).value, 0)| == 0
  {
    RewrittenCounts(s, off);
  }

  /** The induction behind `RewrittenCount`, one character at a time. */
  lemma {:induction false} RewrittenCounts(s: ByteString, off: nat)
    requires off <= |s| && RewrittenFrom(s, off).Some?
    ensures RewriteCounts(s, off)
    decreases |s| - off
  {
    if off < |s| {
      var n := CharLength(s[off]);
      RewriteTail(s, off);
      RewrittenCounts(s, off + n);
      if n == 4 {
        RewrittenCountFour(s, off);
      } else {
        RewrittenCountCopy(s, off, n);
      }
    }
  }

  /** The step of `RewrittenCounts` over a copied character of `n` bytes. */
  lemma RewrittenCountCopy(s: ByteString, off: nat, n: nat)
    requires off < |s| && n == CharLength(s[off]) && n != 0 && n != 4 && off + n <= |s|
    requires RewriteCounts(s, off + n)
    ensures RewriteCounts(s, off)
  {
    var rest := RewrittenFrom(s, off + n).value;
    var c := s[off..off + n];
    assert c[0] == s[off];
    CopiedCharCount(c, rest, CountFrom(s, off + n).value + |FourStartsFrom(s, off + n)|);
    RewriteStep(s, off);
    assert RewrittenFrom(s, off) == Some(c + rest);
    FourStep(s, off);
    CountStep(s, off);
  }

  /** The step of `RewrittenCounts` over a four-byte character. */
  lemma RewrittenCountFour(s: ByteString, off: nat)
    requires off + 4 <= |s| && CharLength(s[off]) == 4 && RewrittenFrom(s, off).Some?
    requires RewriteCounts(s, off + 4)
    ensures RewriteCounts(s, off)
  {
    var rest := RewrittenFrom(s, off + 4).value;
    var cp := CodePoint(s[off], s[off + 1], s[off + 2], s[off + 3]);
    FourStep(s, off);
    CountStep(s, off);
    RewriteFourStep(s, off);
    SurrogatesCount(cp, rest, CountFrom(s, off + 4).value + |FourStartsFrom(s, off + 4)|);
  }

  /** Where the rewrite succeeds, the first character is valid and the rewrite after it succeeds. */
  lemma RewriteTail(s: ByteString, off: nat)
    requires off < |s| && RewrittenFrom(s, off).Some?
    ensures CharLength(s[off]) != 0 && off + CharLength(s[off]) <= |s|
    ensures RewrittenFrom(s, off + CharLength(s[off])).Some?
  {
  }

  /** A copied character of one to three bytes in front of a valid text adds one character and no four-byte one. */
  lemma CopiedCharCount(c: ByteString, rest: ByteString, k: nat)
    requires 0 < |c| && CharLength(c[0]) == |c| && |c| != 4
    requires CountFrom(rest, 0) == Some(k) && |FourStartsFrom(rest, 0)| == 0
    ensures CountFrom(c + rest, 0) == Some(k + 1) && |FourStartsFrom(c + rest, 0)| == 0
  {
    var r := c + rest;
    assert r[0] == c[0] && r[|c|..] == rest;
    OneCharCount(r, |c|, rest);
    OneCharFours(r, |c|, rest);
  }

  /** One valid character counts one, then the rest. */
  lemma CountStep(s: ByteString, off: nat)
    requires off < |s| && CharLength(s[off]) != 0 && off + CharLength(s[off]) <= |s|
    ensures CountFrom(s, off) ==
      match CountFrom(s, off + CharLength(s[off])) case None => None case Some(k) => Some(k + 1)
  {
  }

  /** A four-byte character in range is replaced by its surrogate bytes, and the rewrite goes on after it. */
  lemma RewriteFourStep(s: ByteString, off: nat)
    requires off + 4 <= |s| && CharLength(s[off]) == 4
    requires RewrittenFrom(s, off).Some?
    ensures var cp := CodePoint(s[off], s[off + 1], s[off + 2], s[off + 3]);
      0x1_0000 <= cp <= 0x10_FFFF && RewrittenFrom(s, off + 4).Some? &&
      RewrittenFrom(s, off).value == SurrogateBytes(cp) + RewrittenFrom(s, off + 4).value
  {
  }

  /** The six surrogate bytes in front of a valid text add two three-byte characters and no four-byte one. */
  lemma SurrogatesCount(cp: nat, rest: ByteString, k: nat)
    requires 0x1_0000 <= cp <= 0x10_FFFF
    requires CountFrom(rest, 0) == Some(k) && |FourStartsFrom(rest, 0)| == 0
    ensures CountFrom(SurrogateBytes(cp) + rest, 0) == Some(k + 2)
    ensures |FourStartsFrom(SurrogateBytes(cp) + rest, 0)| == 0
  {
    var p := SurrogateBytes(cp);
    SurrogateLeads(cp);
    CopiedCharCount(p[3..], rest, k);
    CopiedCharCount(p[..3], p[3..] + rest, k + 1);
    assert p[..3] + (p[3..] + rest) == p + rest;
  }

  /** No four-byte offsets exactly when the count of them is zero. */
  lemma FourStartsNone(s: ByteString, off: nat)
    requires off <= |s|
    ensures FourStartsFrom(s, off) == [] <==> |FourStartsFrom(s, off)| == 0
  {
  }
}
