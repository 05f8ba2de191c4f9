/**
 * The framing of lists, maps and class instances (`Encoder` in `codec.cc`):
 * the tag bytes written before and after their elements. A non-empty type
 * name is written through the type-reference encoder, and a class instance
 * through the class-definition encoder; neither encoder is part of this
 * model, so the bytes each writes are given as a parameter.
 */
module CodecFraming {
  import opened Bytes
  import opened Wrappers
  import opened Codec
  import opened NumberCodec

  /** `encodeVarListBegin`: a variable-length list, ended by `END`. */
  const VAR_LIST: uint8 := 0x57
  /** `'V'`: a fixed-length list whose length follows the type. */
  const FIXED_LIST: uint8 := 0x56
  /** `0x70` to `0x77`: a fixed-length list of at most seven elements, the length in the tag. */
  const COMPACT_LIST: uint8 := 0x70
  /** `'H'`: an untyped map. */
  const UNTYPED_MAP: uint8 := 0x48
  /** `'M'`: a typed map, the type following. */
  const TYPED_MAP: uint8 := 0x4d
  /** `'Z'`: the end of a variable-length list or of a map. */
  const END: uint8 := 0x5a

  /** The `int32_t` a `uint32_t` length is converted to when `encode<int32_t>` is called with it. */
  function Narrow32(len: uint32): (r: int32)
    ensures len < 0x8000_0000 ==> r == len
    ensures len >= 0x8000_0000 ==> r == len - 0x1_0000_0000
  {
    PowerValues();
    Signed(len, 4)
  }

  /**
   * The bytes of `encodeFixedListBegin(typeName, len)`, where `typeRef` is
   * what the type-reference encoder writes for `typeName`: the compact tag
   * for up to seven elements, otherwise `'V'`; the type reference unless the
   * name is empty; and for the `'V'` form the length as an int32.
   */
  function FixedListBeginBytes(typeName: ByteString, typeRef: ByteString, len: uint32): ByteString {
    (if len <= 7 then [COMPACT_LIST + len] else [FIXED_LIST])
    + (if typeName == [] then [] else typeRef)
    + (if len > 7 then Int32Bytes(Narrow32(len)) else [])
  }

  /** The bytes of `encodeMapBegin(typeName)`: `'H'` alone for an empty name, else `'M'` and the type reference. */
  function MapBeginBytes(typeName: ByteString, typeRef: ByteString): ByteString {
    if typeName == [] then [UNTYPED_MAP] else [TYPED_MAP] + typeRef
  }

  /** The container a begin tag opens. */
  datatype Frame = VarList | FixedList | Map

  /** The container opened by a lead byte, if any of the begin tags is that byte. */
  function FrameOf(code: uint8): Option<Frame> {
    if code == VAR_LIST then Some(VarList)
    else if code == FIXED_LIST || COMPACT_LIST <= code <= COMPACT_LIST + 7 then Some(FixedList)
    else if code == UNTYPED_MAP || code == TYPED_MAP then Some(Map)
    else None
  }

  /**
   * The length a reader finds in a fixed-list header `s` whose type
   * reference, if there is one, takes `typeRefLength` bytes: in the compact
   * tag, or as the int32 after `'V'` and the type reference.
   */
  function FixedListLength(s: ByteString, typeRefLength: nat): Option<int> {
    if s == [] then None
    else if COMPACT_LIST <= s[0] <= COMPACT_LIST + 7 then Some(s[0] - COMPACT_LIST)
    else if s[0] == FIXED_LIST && |s| >= 1 + typeRefLength then Int32Decoding(s[1 + typeRefLength..]).value
    else None
  }

  /**
   * The first byte of each begin form tells which container it opens, and
   * no begin tag is the end tag.
   */
  lemma BeginTagsIdentifyFrame(typeName: ByteString, typeRef: ByteString, len: uint32)
    ensures FrameOf(VAR_LIST) == Some(VarList)
    ensures FrameOf(FixedListBeginBytes(typeName, typeRef, len)[0]) == Some(FixedList)
    ensures FrameOf(MapBeginBytes(typeName, typeRef)[0]) == Some(Map)
    ensures FrameOf(END).None?
  {
  }

  /**
   * A fixed-list header gives its length back, read after the type
   * reference: a length that fits in an int32 exactly, a larger one as the
   * negative int32 it is narrowed to. The compact form has no length field
   * and the type reference is present exactly when the name is not empty.
   */
  lemma {:induction false} FixedListLengthRoundTrip(typeName: ByteString, typeRef: ByteString, len: uint32, rest: ByteString)
    ensures var refLength := if typeName == [] then 0 else |typeRef|;
      FixedListLength(FixedListBeginBytes(typeName, typeRef, len) + rest, refLength) == Some(Narrow32(len))
    ensures len < 0x8000_0000 ==>
      FixedListLength(FixedListBeginBytes(typeName, typeRef, len) + rest, if typeName == [] then 0 else |typeRef|) == Some(len)
    ensures len <= 7 ==> |FixedListBeginBytes(typeName, typeRef, len)| == 1 + if typeName == [] then 0 else |typeRef|
  {
    var refPart := if typeName == [] then [] else typeRef;
    var s := FixedListBeginBytes(typeName, typeRef, len) + rest;
    if len > 7 {
      var n := Narrow32(len);
      assert s == [FIXED_LIST] + refPart + (Int32Bytes(n) + rest);
      assert s[1 + |refPart|..] == Int32Bytes(n) + rest;
      Int32RoundTrip(n, rest);
    }
  }

  /** A map header is `'H'` exactly for an untyped map, and the type reference follows `'M'` otherwise. */
  lemma MapBeginForm(typeName: ByteString, typeRef: ByteString)
    ensures MapBeginBytes(typeName, typeRef)[0] == UNTYPED_MAP <==> typeName == []
    ensures typeName != [] ==> MapBeginBytes(typeName, typeRef)[1..] == typeRef
    ensures typeName == [] ==> |MapBeginBytes(typeName, typeRef)| == 1
  {
  }

  /** `encodeVarListBegin`: writes the tag and ignores the type name. */
  method EncodeVarListBegin(e: Encoder, typeName: ByteString)
    modifies e.writer
    ensures e.writer.data == old(e.writer.data) + [VAR_LIST]
  {
    e.writer.WriteByte(VAR_LIST);
  }

  /** `encodeVarListEnd`. */
  method EncodeVarListEnd(e: Encoder)
    modifies e.writer
    ensures e.writer.data == old(e.writer.data) + [END]
  {
    e.writer.WriteByte(END);
  }

  /** `encodeFixedListBegin`, with `typeRef` the bytes the type-reference encoder writes for `typeName`. */
  method EncodeFixedListBegin(e: Encoder, typeName: ByteString, typeRef: ByteString, len: uint32)
    modifies e.writer
    ensures e.writer.data == old(e.writer.data) + FixedListBeginBytes(typeName, typeRef, len)
  {
    if len <= 7 {
      e.writer.WriteByte(COMPACT_LIST + len);
    } else {
      e.writer.WriteByte(FIXED_LIST);
    }
    ghost var tagged := e.writer.data;
    if typeName != [] {
      e.writer.RawWriteView(typeRef);
    }
    ghost var typed := e.writer.data;
    if len > 7 {
      var ok := EncodeInt32(e, Narrow32(len));
    }
    assert e.writer.data == typed + (if len > 7 then Int32Bytes(Narrow32(len)) else []);
  }

  /** `encodeMapBegin`, with `typeRef` the bytes the type-reference encoder writes for `typeName`. */
  method EncodeMapBegin(e: Encoder, typeName: ByteString, typeRef: ByteString)
    modifies e.writer
    ensures e.writer.data == old(e.writer.data) + MapBeginBytes(typeName, typeRef)
  {
    if typeName == [] {
      e.writer.WriteByte(UNTYPED_MAP);
    } else {
      e.writer.WriteByte(TYPED_MAP);
      e.writer.RawWriteView(typeRef);
    }
  }

  /** `encodeMapEnd`. */
  method EncodeMapEnd(e: Encoder)
    modifies e.writer
    ensures e.writer.data == old(e.writer.data) + [END]
  {
    e.writer.WriteByte(END);
  }

  /**
   * `encodeClassInstanceBegin`: only the definition is written, as the
   * bytes `definition` the class-definition encoder writes for it.
   */
  method EncodeClassInstanceBegin(e: Encoder, definition: ByteString)
    modifies e.writer
    ensures e.writer.data == old(e.writer.data) + definition
  {
    e.writer.RawWriteView(definition);
  }
}
