/**
 * The byte sink of the encoder: `Writer`'s typed helpers over `StringWriter`'s
 * appending `RawWrite`. The caller's output string is the writer's `data`.
 */
module Writer {
  import opened Bytes

  datatype ByteOrder = LittleEndian | BigEndian

  /** The in-memory image of a `width`-byte integer after conversion to the given byte order. */
  function Image(order: ByteOrder, value: int, width: nat): (r: seq<uint8>)
    ensures |r| == width
    ensures order == LittleEndian ==> r == Reverse(BE(value, width))
  {
    LEIsReversedBE(value, width);
    match order
    case BigEndian => BE(value, width)
    case LittleEndian => LE(value, width)
  }

  class StringWriter {
    /** The output string the writer appends to. */
    var data: seq<uint8>

    constructor(output: seq<uint8>)
      ensures data == output
    {
      data := output;
    }

    /** `RawWrite(const void*, size)`: appends the first `size` bytes at `src`. */
    method RawWrite(src: seq<uint8>, size: nat)
      requires size <= |src|
      modifies this
      ensures data == old(data) + src[..size]
    {
      data := data + src[..size];
    }

    /** `RawWrite(string_view)`: appends the whole view. */
    method RawWriteView(view: seq<uint8>)
      modifies this
      ensures data == old(data) + view
    {
      data := data + view;
    }

    /** `WriteByte`: the value is converted to `uint8_t`, keeping its low eight bits. */
    method WriteByte(value: int)
      modifies this
      ensures data == old(data) + [Unsigned(value, 1)]
    {
      var b: uint8 := Unsigned(value, 1);
      RawWrite([b], 1);
    }

    /** `Write<Endianness, T>`: the value converted to a `width`-byte integer, in the given order. */
    method Write(order: ByteOrder, value: int, width: nat)
      modifies this
      ensures data == old(data) + Image(order, value, width)
    {
      var image := Image(order, value, width);
      RawWrite(image, width);
    }

    method WriteLE(value: int, width: nat)
      modifies this
      ensures data == old(data) + LE(value, width)
    {
      Write(LittleEndian, value, width);
    }

    method WriteBE(value: int, width: nat)
      modifies this
      ensures data == old(data) + BE(value, width)
    {
      Write(BigEndian, value, width);
    }
  }

  /** Bytes written for `int8_t` values -128, -1, 0, 1 and 127 (one byte each, either order). */
  lemma SignedByteImages()
    ensures BE(-128, 1) == [0x80] && BE(-1, 1) == [0xFF] && BE(0, 1) == [0x00]
    ensures BE(1, 1) == [0x01] && BE(127, 1) == [0x7F]
  {
  }

  /** The minimum `int16_t` and the `uint16_t` value 32768 share the image 80 00. */
  lemma Int16MinImage()
    ensures BE(-32768, 2) == BE(32768, 2) == [0x80, 0x00]
    ensures LE(-32768, 2) == [0x00, 0x80]
  {
    BEOfUnsigned(-32768, 2);
  }

  /** A 32-bit value in both orders. */
  lemma Int32Images()
    ensures BE(0x01020304, 4) == [0x01, 0x02, 0x03, 0x04]
    ensures LE(0x01020304, 4) == [0x04, 0x03, 0x02, 0x01]
    ensures BE(-1, 4) == [0xFF, 0xFF, 0xFF, 0xFF]
  {
  }
}
