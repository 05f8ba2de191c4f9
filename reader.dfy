/**
 * The byte source of the decoder: a `StringReader` over an input buffer with a
 * read position. Reads that find too few bytes fail, yield zero and leave the
 * position where it was.
 */
module Reader {
  import opened Bytes

  class StringReader {
    const buffer: seq<uint8>
    var pos: nat

    ghost predicate Valid()
      reads this
    {
      pos <= |buffer|
    }

    constructor(input: seq<uint8>)
      ensures buffer == input && pos == 0 && Valid()
    {
      buffer := input;
      pos := 0;
    }

    /** `Offset()`: how many bytes have been consumed. */
    function Offset(): nat
      reads this
    {
      pos
    }

    /** `ByteAvailable()`: how many bytes remain. */
    function ByteAvailable(): (n: nat)
      reads this
      requires Valid()
      ensures n == |Rest()|
    {
      |buffer| - pos
    }

    /** The bytes not yet consumed. */
    function Rest(): seq<uint8>
      reads this
      requires Valid()
    {
      buffer[pos..]
    }

    /** `read<uint8_t>()`: the next byte, if there is one. */
    method Read() returns (ok: bool, v: uint8)
      requires Valid()
      modifies this
      ensures Valid()
      ensures ok == (old(ByteAvailable()) >= 1)
      ensures ok ==> v == old(Rest())[0] && pos == old(pos) + 1
      ensures !ok ==> v == 0 && pos == old(pos)
    {
      if pos < |buffer| {
        ok, v := true, buffer[pos];
        pos := pos + 1;
      } else {
        ok, v := false, 0;
      }
    }

    /** `readBE<T>()` for an unsigned `width`-byte `T`: the big-endian value of the next bytes. */
    method ReadBE(width: nat) returns (ok: bool, v: nat)
      requires Valid()
      modifies this
      ensures Valid()
      ensures ok == (old(ByteAvailable()) >= width)
      ensures ok ==> v == FromBE(old(Rest())[..width]) && pos == old(pos) + width
      ensures !ok ==> v == 0 && pos == old(pos)
    {
      if width <= |buffer| - pos {
        ok, v := true, FromBE(buffer[pos..pos + width]);
        assert buffer[pos..pos + width] == buffer[pos..][..width];
        pos := pos + width;
      } else {
        ok, v := false, 0;
      }
    }

    /** `readBE<T>()` for a signed `width`-byte `T`: the two's-complement reading of the next bytes. */
    method ReadSignedBE(width: nat) returns (ok: bool, v: int)
      requires Valid() && width > 0
      modifies this
      ensures Valid()
      ensures ok == (old(ByteAvailable()) >= width)
      ensures ok ==> v == Signed(FromBE(old(Rest())[..width]), width) && pos == old(pos) + width
      ensures !ok ==> v == 0 && pos == old(pos)
    {
      var u;
      ok, u := ReadBE(width);
      v := if ok then Signed(u, width) else 0;
    }

    /** `readNBytes(len)`: copies the next `len` bytes out and consumes them. */
    method ReadNBytes(len: nat) returns (bytes: seq<uint8>)
      requires Valid() && len <= ByteAvailable()
      modifies this
      ensures Valid()
      ensures bytes == old(Rest())[..len] && pos == old(pos) + len
      ensures Rest() == old(Rest())[len..]
    {
      bytes := buffer[pos..pos + len];
      pos := pos + len;
    }
  }
}
