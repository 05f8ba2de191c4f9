/**
 * The session objects of the codec: a `Decoder` reads from a `StringReader`
 * and remembers the type names, class definitions and values seen so far; an
 * `Encoder` writes to a `StringWriter` and remembers which type names,
 * definitions and values it has already emitted, so that later occurrences
 * can be written as references.
 */
module Codec {
  import opened Bytes
  import opened Wrappers
  import opened Object
  import opened Writer
  import opened Reader

  datatype DecodeError = NoError | NotEnoughBuffer | UnexpectedType

  datatype EncodeError = EncodeNoError

  /** What a decoder yields for a given input: a value or null, and how many bytes it consumed either way. */
  datatype Decoded<T> = Decoded(value: Option<T>, consumed: nat)

  /** `Decoder::errorCodeToString`: the text of a decode error; only `NO_ERROR` has the empty text. */
  function DecodeErrorText(code: DecodeError): (r: string)
    ensures r == "" <==> code == NoError
    ensures !HasPositionPrefix(r)
  {
    var r := match code
      case NoError => ""
      case NotEnoughBuffer => "There is not enough buffer"
      case UnexpectedType => "Unexpected type";
    r
  }

  /** A message that opens with a position, as `absl::StrFormat("pos: %d, %s", ...)` writes one. */
  predicate HasPositionPrefix(s: string) {
    |s| >= 5 && s[0] == 'p' && s[1] == 'o' && s[2] == 's' && s[3] == ':' && s[4] == ' '
  }

  function DigitChar(d: nat): (c: char)
    requires d < 10
    ensures '0' <= c <= '9'
  {
    ['0', '1', '2', '3', '4', '5', '6', '7', '8', '9'][d]
  }

  /** Decimal digits of a natural number, most significant first. */
  function Digits(n: nat): (r: string)
    ensures |r| >= 1
  {
    if n < 10 then [DigitChar(n)] else Digits(n / 10) + [DigitChar(n % 10)]
  }

  /** `%d` formatting of an `int`. */
  function Decimal(n: int): (r: string)
    ensures |r| >= 1
  {
    if n < 0 then "-" + Digits(-n) else Digits(n)
  }

  /**
   * `Decoder::getErrorMessage` as written: the `pos: ` prefix is added when
   * the recorded position is zero (the position printed is then always 0),
   * and left off when there is a position to report.
   */
  function ErrorMessage(code: DecodeError, pos: int): (r: string)
    ensures HasPositionPrefix(r) <==> pos == 0
    ensures pos != 0 ==> r == DecodeErrorText(code)
  {
    if pos == 0 then "pos: " + Decimal(pos) + ", " + DecodeErrorText(code)
    else DecodeErrorText(code)
  }

  /** The message with the test the other way round: a non-zero position is reported before the text. */
  function ErrorMessageIntended(code: DecodeError, pos: int): (r: string)
    ensures HasPositionPrefix(r) <==> pos != 0
    ensures |r| >= |DecodeErrorText(code)| && r[|r| - |DecodeErrorText(code)|..] == DecodeErrorText(code)
  {
    var text := DecodeErrorText(code);
    if pos != 0 then
      var r := "pos: " + Decimal(pos) + ", " + text;
      assert r[|r| - |text|..] == text;
      r
    else text
  }

  /** An error found at offset 7 loses its position as written, and keeps it once the test is inverted. */
  lemma ErrorMessagePositionInverted()
    ensures ErrorMessage(UnexpectedType, 7) == "Unexpected type"
    ensures ErrorMessage(NoError, 0) == "pos: 0, "
    ensures ErrorMessageIntended(UnexpectedType, 7) == "pos: 7, Unexpected type"
    ensures ErrorMessageIntended(NoError, 0) == ""
  {
    assert Decimal(0) == "0" && Decimal(7) == "7";
  }

  /** The first index at which `defs` holds `def`. */
  function IndexOf(defs: seq<RawDefinition>, def: RawDefinition): (r: Option<nat>)
    ensures r.Some? ==> r.value < |defs| && defs[r.value] == def
    ensures r.Some? ==> forall j :: 0 <= j < r.value ==> defs[j] != def
    ensures r.None? ==> forall j :: 0 <= j < |defs| ==> defs[j] != def
  {
    if defs == [] then None
    else if defs[0] == def then Some(0)
    else match IndexOf(defs[1..], def)
      case None => None
      case Some(k) => Some(k + 1)
  }

  /** A lookup in a `uint16`-valued table, returned as `int16_t`, with -1 for a missing key. */
  function Lookup<K>(table: map<K, uint16>, key: K): (r: int)
    ensures key !in table ==> r == -1
    ensures key in table && table[key] < 0x8000 ==> r == table[key]
    ensures r >= 0 ==> key in table && table[key] == r
    ensures -0x8000 <= r < 0x8000
  {
    if key in table then Signed(table[key], 2) else -1
  }

  /** A table size returned as `uint16_t`: exact below 65536, otherwise wrapped. */
  function Size16(size: nat): (n: nat)
    ensures n < 0x1_0000
    ensures size < 0x1_0000 ==> n == size
    ensures n % 0x1_0000 == size % 0x1_0000
  {
    Unsigned(size, 2)
  }

  class Decoder {
    const reader: StringReader
    /** `types_ref_`: the type names read so far, by reference number. */
    var typesRef: seq<ByteString>
    /** `def_ref_`: the class definitions read so far, by reference number. */
    var defRef: seq<RawDefinition>
    /** `values_ref_`: the objects decoded so far, as positions in the session's object arena. */
    var valuesRef: seq<nat>
    var errorCode: DecodeError
    /** `error_pos_`: a C++ `int`. */
    var errorPos: int

    ghost predicate Valid()
      reads this, reader
    {
      reader.Valid()
    }

    /** `Decoder(string_view)`: a fresh `StringReader` over the input, empty tables, no error. */
    constructor(input: ByteString)
      ensures fresh(reader) && reader.buffer == input && reader.pos == 0 && Valid()
      ensures typesRef == [] && defRef == [] && valuesRef == []
      ensures errorCode == NoError && errorPos == 0
    {
      reader := new StringReader(input);
      typesRef, defRef, valuesRef := [], [], [];
      errorCode, errorPos := NoError, 0;
    }

    /** `Decoder(ReaderPtr&&)`: takes over an existing reader. */
    constructor FromReader(r: StringReader)
      requires r.Valid()
      ensures reader == r && Valid()
      ensures typesRef == [] && defRef == [] && valuesRef == []
      ensures errorCode == NoError && errorPos == 0
    {
      reader := r;
      typesRef, defRef, valuesRef := [], [], [];
      errorCode, errorPos := NoError, 0;
    }

    function Offset(): nat
      reads this, reader
    {
      reader.Offset()
    }

    /** `getTypeRefSize`: the table size narrowed to `uint16_t`. */
    function GetTypeRefSize(): (n: nat)
      reads this
      ensures n < 0x1_0000
      ensures |typesRef| < 0x1_0000 ==> n == |typesRef|
    {
      Size16(|typesRef|)
    }

    /** `getDefRefSize`: the table size narrowed to `uint16_t`. */
    function GetDefRefSize(): (n: nat)
      reads this
      ensures n < 0x1_0000
      ensures |defRef| < 0x1_0000 ==> n == |defRef|
    {
      Size16(|defRef|)
    }

    /** `getErrorMessage`, as written. */
    function GetErrorMessage(): (r: string)
      reads this
      ensures HasPositionPrefix(r) <==> errorPos == 0
    {
      ErrorMessage(errorCode, errorPos)
    }
  }

  class Encoder {
    const writer: StringWriter
    /** `types_ref_`: type name to reference number. */
    var typesRef: map<ByteString, uint16>
    /** `def_ref_`: the class definitions written so far, by reference number. */
    var defRef: seq<RawDefinition>
    /** `values_ref_`: object identity (a position in the object arena) to reference number. */
    var valuesRef: map<nat, uint16>
    var errorCode: EncodeError

    /** `Encoder(std::string&)`: a fresh `StringWriter` appending to the output, empty tables. */
    constructor(output: ByteString)
      ensures fresh(writer) && writer.data == output
      ensures typesRef == map[] && defRef == [] && valuesRef == map[]
      ensures errorCode == EncodeNoError
    {
      writer := new StringWriter(output);
      typesRef, defRef, valuesRef := map[], [], map[];
      errorCode := EncodeNoError;
    }

    /** `Encoder(WriterPtr&&)`: takes over an existing writer. */
    constructor FromWriter(w: StringWriter)
      ensures writer == w
      ensures typesRef == map[] && defRef == [] && valuesRef == map[]
      ensures errorCode == EncodeNoError
    {
      writer := w;
      typesRef, defRef, valuesRef := map[], [], map[];
      errorCode := EncodeNoError;
    }

    function GetTypeRefSize(): (n: nat)
      reads this
      ensures n < 0x1_0000
      ensures |typesRef| < 0x1_0000 ==> n == |typesRef|
    {
      Size16(|typesRef|)
    }

    function GetDefRefSize(): (n: nat)
      reads this
      ensures n < 0x1_0000
      ensures |defRef| < 0x1_0000 ==> n == |defRef|
    {
      Size16(|defRef|)
    }

    function GetValueRefSize(): (n: nat)
      reads this
      ensures n < 0x1_0000
      ensures |valuesRef| < 0x1_0000 ==> n == |valuesRef|
    {
      Size16(|valuesRef|)
    }

    /** `getTypeRef`: the reference number stored for the name, or -1. */
    function GetTypeRef(search: ByteString): (r: int)
      reads this
      ensures search !in typesRef ==> r == -1
      ensures search in typesRef && typesRef[search] < 0x8000 ==> r == typesRef[search]
      ensures r >= 0 ==> search in typesRef && typesRef[search] == r
    {
      Lookup(typesRef, search)
    }

    /** `getValueRef`: the reference number stored for this very object (identity, not equality), or -1. */
    function GetValueRef(o: nat): (r: int)
      reads this
      ensures o !in valuesRef ==> r == -1
      ensures o in valuesRef && valuesRef[o] < 0x8000 ==> r == valuesRef[o]
      ensures r >= 0 ==> o in valuesRef && valuesRef[o] == r
    {
      Lookup(valuesRef, o)
    }

    /**
     * `getDefRef`: a linear search with a `uint16_t` counter, returning the
     * first matching index as `int16_t`. The counter would wrap and the
     * search never end only when no definition below index 65536 matches in
     * a table of 65536 or more, so that case is excluded.
     */
    method GetDefRef(def: RawDefinition) returns (r: int)
      requires |defRef| < 0x1_0000 || (IndexOf(defRef, def).Some? && IndexOf(defRef, def).value < 0x1_0000)
      ensures IndexOf(defRef, def).None? ==> r == -1
      ensures IndexOf(defRef, def).Some? ==> r == Signed(IndexOf(defRef, def).value, 2)
      ensures r >= 0 ==> r < |defRef| && defRef[r] == def && forall j :: 0 <= j < r ==> defRef[j] != def
    {
      var i: uint16 := 0;
      while i < |defRef|
        invariant i <= |defRef|
        invariant forall j :: 0 <= j < i ==> defRef[j] != def
        decreases |defRef| - i
      {
        if defRef[i] == def {
          r := Signed(i, 2);
          assert IndexOf(defRef, def) == Some(i as nat);
          return;
        }
        assert IndexOf(defRef, def).Some? ==> i < IndexOf(defRef, def).value;
        i := i + 1;
      }
      r := -1;
    }

    function GetErrorMessage(): (r: string)
      reads this
      ensures r == ""
    {
      match errorCode
      case EncodeNoError => ""
    }
  }

  /** `getDefRef` reports a definition as present exactly when it is stored below index 32768. */
  lemma DefRefFoundIffEarly(defs: seq<RawDefinition>, def: RawDefinition)
    requires |defs| < 0x1_0000
    ensures (IndexOf(defs, def).Some? && Signed(IndexOf(defs, def).value, 2) >= 0)
        <==> exists j :: 0 <= j < |defs| && j < 0x8000 && defs[j] == def
  {
    var r := IndexOf(defs, def);
    if r.Some? && r.value >= 0x8000 {
      assert Signed(r.value, 2) == r.value - 0x1_0000;
    }
    if exists j :: 0 <= j < |defs| && j < 0x8000 && defs[j] == def {
      var j :| 0 <= j < |defs| && j < 0x8000 && defs[j] == def;
      assert r.Some?;
      assert r.value <= j;
    }
  }
}
