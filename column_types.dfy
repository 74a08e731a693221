/**
 * The column-type decoder: the switch on a column's JET_coltyp code that
 * chooses how a cell is retrieved and what value the JSON writer receives.
 */
module ColumnTypes {
  import opened Wrappers
  import opened Bytes
  import Hex

  /** The JET_coltyp codes the decoder distinguishes; every other code is Other. */
  datatype Tag =
    | Nil | Bit | UnsignedByte | Short | Long | Currency | IEEESingle | IEEEDouble
    | DateTime | Binary | Text | LongBinary | LongText
    | UnsignedLong | LongLong | GUID | UnsignedShort
    | Other(code: int)

  /** The codes with a case of their own: JET_coltyp 0 to 12 and the literals 14 to 17. */
  predicate Listed(code: int)
  {
    0 <= code <= 12 || 14 <= code <= 17
  }

  /** The tag of an engine-reported column type code. */
  function TagOf(code: int): (t: Tag)
    ensures t.Other? <==> !Listed(code)
  {
    match code
    case 0 => Nil
    case 1 => Bit
    case 2 => UnsignedByte
    case 3 => Short
    case 4 => Long
    case 5 => Currency
    case 6 => IEEESingle
    case 7 => IEEEDouble
    case 8 => DateTime
    case 9 => Binary
    case 10 => Text
    case 11 => LongBinary
    case 12 => LongText
    case 14 => UnsignedLong
    case 15 => LongLong
    case 16 => GUID
    case 17 => UnsignedShort
    case _ => Other(code)
  }

  /** The code a tag stands for. */
  function CodeOf(t: Tag): (code: int)
    ensures Canonical(t) ==> TagOf(code) == t
  {
    match t
    case Nil => 0
    case Bit => 1
    case UnsignedByte => 2
    case Short => 3
    case Long => 4
    case Currency => 5
    case IEEESingle => 6
    case IEEEDouble => 7
    case DateTime => 8
    case Binary => 9
    case Text => 10
    case LongBinary => 11
    case LongText => 12
    case UnsignedLong => 14
    case LongLong => 15
    case GUID => 16
    case UnsignedShort => 17
    case Other(c) => c
  }

  /** A tag as TagOf can produce it: Other never carries a listed code. */
  predicate Canonical(t: Tag)
  {
    t.Other? ==> !Listed(t.code)
  }

  /** A stored cell: null, or the bytes the engine keeps for it. */
  datatype Cell = NullCell | Stored(bytes: seq<byte>)

  /** Which interop accessor a case of the switch calls; NoRetrieval writes a fixed string. */
  datatype Retrieval =
    | NoRetrieval(literal: string)
    | AsBoolean | AsByte | AsInt16 | AsInt32 | AsInt64 | AsDouble | AsFloat
    | AsBinary | AsString | AsUInt32 | AsGuid | AsUInt16

  /** The value handed to the JSON writer's WriteValue. */
  datatype DecodedValue =
    | NullValue                       // a nullable accessor found a null cell
    | StringValue(s: string)
    | BoolValue(b: bool)
    | UInt8Value(n: int)
    | Int16Value(n: int)
    | Int32Value(n: int)
    | Int64Value(n: int)
    | UInt16Value(n: int)
    | UInt32Value(n: int)
    | DoubleValue(bits: seq<byte>)    // IEEE double, kept as its stored bytes
    | FloatValue(bits: seq<byte>)     // IEEE single, kept as its stored bytes
    | TextValue(utf16: seq<byte>)     // UTF-16 text, kept as its stored bytes
    | GuidValue(raw: seq<byte>)       // a GUID, kept as its stored bytes

  const Unrecognised: string := "type not recognised"

  /** The switch of WriteValue: which accessor each tag gets. */
  function RetrievalOf(t: Tag): (k: Retrieval)
    ensures k.NoRetrieval? <==> t.Nil? || t.Other?
    ensures k.NoRetrieval? ==> (k.literal == Unrecognised <==> t.Other?)
  {
    match t
    case Nil => NoRetrieval("")
    case Bit => AsBoolean
    case UnsignedByte => AsByte
    case Short => AsInt16
    case Long => AsInt32
    case Currency => AsInt64
    case IEEESingle => AsDouble
    case IEEEDouble => AsDouble
    case DateTime => AsFloat
    case Binary => AsBinary
    case LongBinary => AsBinary
    case Text => AsString
    case LongText => AsString
    case UnsignedLong => AsUInt32
    case LongLong => AsInt64
    case GUID => AsGuid
    case UnsignedShort => AsUInt16
    case Other(_) => NoRetrieval(Unrecognised)
  }

  /** The accessors that read a fixed number of bytes into a nullable value. */
  predicate IsFixed(k: Retrieval)
  {
    !(k.NoRetrieval? || k.AsBinary? || k.AsString?)
  }

  /** How many bytes a fixed-width accessor reads. */
  function Width(k: Retrieval): (w: nat)
    ensures IsFixed(k) <==> w > 0
  {
    match k
    case AsBoolean => 1
    case AsByte => 1
    case AsInt16 => 2
    case AsUInt16 => 2
    case AsInt32 => 4
    case AsUInt32 => 4
    case AsFloat => 4
    case AsInt64 => 8
    case AsDouble => 8
    case AsGuid => 16
    case _ => 0
  }

  /** The value a fixed-width accessor makes of exactly Width(k) bytes. */
  function Interpret(k: Retrieval, bs: seq<byte>): (v: DecodedValue)
    requires IsFixed(k) && |bs| == Width(k)
    ensures Yields(k, v) && InRange(v)
  {
    PowValues();
    match k
    case AsBoolean => BoolValue(bs[0] != 0)
    case AsByte => UInt8Value(bs[0] as int)
    case AsInt16 => Int16Value(Signed(bs))
    case AsInt32 => Int32Value(Signed(bs))
    case AsInt64 => Int64Value(Signed(bs))
    case AsUInt16 => UInt16Value(Unsigned(bs))
    case AsUInt32 => UInt32Value(Unsigned(bs))
    case AsDouble => DoubleValue(bs)
    case AsFloat => FloatValue(bs)
    case AsGuid => GuidValue(bs)
  }

  /**
   * One interop accessor applied to a cell. A fixed-width accessor gives null
   * for a null cell, reads the first Width(k) bytes of a longer one, and
   * fails on a shorter one.
   */
  function Retrieve(k: Retrieval, cell: Cell): (r: Result<DecodedValue, nat>)
    ensures r.Failure? <==> IsFixed(k) && cell.Stored? && |cell.bytes| < Width(k)
    ensures r.Failure? ==> r.error == Width(k)
    ensures r.Success? && IsFixed(k) ==> (r.value == NullValue <==> cell.NullCell?)
    ensures r.Success? && IsFixed(k) && cell.Stored? ==> Yields(k, r.value) && InRange(r.value)
  {
    match k
    case NoRetrieval(s) => Success(StringValue(s))
    case AsBinary =>
      Success(StringValue(Hex.ToHexString(if cell.Stored? then cell.bytes else [])))
    case AsString =>
      Success(if cell.NullCell? then NullValue else TextValue(cell.bytes))
    case _ =>
      if cell.NullCell? then Success(NullValue)
      else if |cell.bytes| < Width(k) then Failure(Width(k))
      else Success(Interpret(k, cell.bytes[..Width(k)]))
  }

  /** What WriteValue hands the writer for a column of tag t holding cell. */
  function Decode(t: Tag, cell: Cell): (r: Result<DecodedValue, nat>)
    ensures r.Success? && r.value.StringValue? ==> t.Nil? || t.Other? || t.Binary? || t.LongBinary?
    ensures r.Success? && r.value.TextValue? ==> t.Text? || t.LongText?
    ensures t.Other? ==> r == Success(StringValue(Unrecognised))
  {
    Retrieve(RetrievalOf(t), cell)
  }

  /** The value ranges of the .NET types the accessors return. */
  predicate InRange(v: DecodedValue)
  {
    match v
    case UInt8Value(n) => 0 <= n < 0x100
    case Int16Value(n) => -0x8000 <= n < 0x8000
    case Int32Value(n) => -0x8000_0000 <= n < 0x8000_0000
    case Int64Value(n) => -0x8000_0000_0000_0000 <= n < 0x8000_0000_0000_0000
    case UInt16Value(n) => 0 <= n < 0x1_0000
    case UInt32Value(n) => 0 <= n < 0x1_0000_0000
    case DoubleValue(bits) => |bits| == 8
    case FloatValue(bits) => |bits| == 4
    case GuidValue(raw) => |raw| == 16
    case _ => true
  }

  /** Whether accessor k can return a value of v's kind. */
  predicate Yields(k: Retrieval, v: DecodedValue)
  {
    match k
    case AsBoolean => v.BoolValue?
    case AsByte => v.UInt8Value?
    case AsInt16 => v.Int16Value?
    case AsInt32 => v.Int32Value?
    case AsInt64 => v.Int64Value?
    case AsUInt16 => v.UInt16Value?
    case AsUInt32 => v.UInt32Value?
    case AsDouble => v.DoubleValue?
    case AsFloat => v.FloatValue?
    case AsGuid => v.GuidValue?
    case _ => false
  }

  /** The bytes a column of accessor k stores for v: the inverse of Interpret. */
  function EncodeValue(k: Retrieval, v: DecodedValue): (bs: seq<byte>)
    requires Yields(k, v) && InRange(v)
    ensures |bs| == Width(k)
  {
    match v
    case BoolValue(b) => if b then [1] else [0]
    case UInt8Value(n) => [n as byte]
    case Int16Value(n) => EncodeSigned(n, 2)
    case Int32Value(n) => EncodeSigned(n, 4)
    case Int64Value(n) => EncodeSigned(n, 8)
    case UInt16Value(n) => Encode(n, 2)
    case UInt32Value(n) => Encode(n, 4)
    case DoubleValue(bits) => bits
    case FloatValue(bits) => bits
    case GuidValue(raw) => raw
  }

  lemma PowValues()
    ensures Pow256(1) == 0x100 && Pow256(2) == 0x1_0000 && Pow256(4) == 0x1_0000_0000
    ensures Pow256(8) == 0x1_0000_0000_0000_0000
  {
    assert Pow256(3) == 0x100_0000;
    assert Pow256(5) == 0x100_0000_0000;
    assert Pow256(6) == 0x1_0000_0000_0000;
    assert Pow256(7) == 0x100_0000_0000_0000;
  }

  /** The mapping between codes and tags is a bijection onto the canonical tags. */
  lemma TagCodeRoundTrip(code: int, t: Tag)
    ensures CodeOf(TagOf(code)) == code
    ensures Canonical(TagOf(code))
    ensures Canonical(t) ==> TagOf(CodeOf(t)) == t
  {
  }

  /**
   * Exactly the codes without a case of their own, 13 (SLV) and everything
   * from 18 on and below 0 included, decode to "type not recognised",
   * whatever the cell holds.
   */
  lemma UnrecognisedIff(code: int, cell: Cell)
    ensures Decode(TagOf(code), cell) == Success(StringValue(Unrecognised)) <==> !Listed(code)
  {
    var t := TagOf(code);
    if t == Binary || t == LongBinary {
      var bs := if cell.Stored? then cell.bytes else [];
      var s := Hex.ToHexString(bs);
      Hex.HexAlphabet(bs);
      assert !Hex.IsHexChar(Unrecognised[0]);
    }
  }

  /** A Nil column writes the empty string without reading the cell. */
  lemma NilIsEmptyString(cell: Cell)
    ensures Decode(TagOf(0), cell) == Success(StringValue(""))
  {
  }

  /** A Bit column writes a boolean, or null for a null cell, and never a string or a number. */
  lemma BitIsBoolean(cell: Cell)
    ensures Decode(TagOf(1), cell).Success? ==>
              Decode(TagOf(1), cell).value.BoolValue? || Decode(TagOf(1), cell).value == NullValue
    ensures cell.Stored? && |cell.bytes| >= 1 ==> Decode(TagOf(1), cell) == Success(BoolValue(cell.bytes[0] != 0))
  {
  }

  /** The tags that share an arm of the switch decode every cell alike. */
  lemma SharedArms(cell: Cell)
    ensures Decode(Currency, cell) == Decode(LongLong, cell)
    ensures Decode(IEEESingle, cell) == Decode(IEEEDouble, cell)
    ensures Decode(Binary, cell) == Decode(LongBinary, cell)
    ensures Decode(Text, cell) == Decode(LongText, cell)
    ensures Decode(Currency, cell).Success? && Decode(Currency, cell).value != NullValue ==>
              Decode(Currency, cell).value.Int64Value?
  {
    assert RetrievalOf(Currency) == RetrievalOf(LongLong) == AsInt64;
    assert RetrievalOf(IEEESingle) == RetrievalOf(IEEEDouble);
    assert RetrievalOf(Binary) == RetrievalOf(LongBinary);
    assert RetrievalOf(Text) == RetrievalOf(LongText);
  }

  /**
   * Decoding fails exactly when a fixed-width accessor meets a non-null cell
   * shorter than its width; a null cell gives null except for the arms that
   * never read nullably (Nil, Other, Binary and LongBinary).
   */
  lemma DecodeOutcomes(t: Tag, cell: Cell)
    ensures Decode(t, cell).Failure? <==>
              cell.Stored? && IsFixed(RetrievalOf(t)) && |cell.bytes| < Width(RetrievalOf(t))
    ensures cell == NullCell ==>
              (Decode(t, cell) == Success(NullValue) <==>
                 !(t.Nil? || t.Other? || t.Binary? || t.LongBinary?))
  {
  }

  /** Every decoded number lies in the range of the .NET type the accessor returns. */
  lemma DecodedInRange(t: Tag, cell: Cell)
    ensures Decode(t, cell).Success? ==> InRange(Decode(t, cell).value)
  {
    var k := RetrievalOf(t);
    if IsFixed(k) && cell.Stored? && |cell.bytes| >= Width(k) {
      PowValues();
    }
  }

  /** A fixed-width cell holding exactly the encoding of v decodes to v. */
  lemma {:induction false} DecodeEncoded(t: Tag, v: DecodedValue)
    requires Yields(RetrievalOf(t), v) && InRange(v)
    ensures Decode(t, Stored(EncodeValue(RetrievalOf(t), v))) == Success(v)
  {
    var k := RetrievalOf(t);
    var bs := EncodeValue(k, v);
    assert bs[..Width(k)] == bs;
    PowValues();
    match v
    case Int16Value(n) => SignedEncode(n, 2);
    case Int32Value(n) => SignedEncode(n, 4);
    case Int64Value(n) => SignedEncode(n, 8);
    case UInt16Value(n) => UnsignedEncode(n, 2);
    case UInt32Value(n) => UnsignedEncode(n, 4);
    case _ =>
  }

  /**
   * A binary column renders the stored bytes (none for a null cell) as
   * BitConverter.ToString does: 3n - 1 characters for n bytes, from which
   * the bytes can be read back.
   */
  lemma BinaryRendering(t: Tag, cell: Cell)
    requires t == Binary || t == LongBinary
    ensures var bs := if cell.Stored? then cell.bytes else [];
            && Decode(t, cell).Success?
            && Decode(t, cell).value.StringValue?
            && |Decode(t, cell).value.s| == (if |bs| == 0 then 0 else 3 * |bs| - 1)
            && Hex.ParseHex(Decode(t, cell).value.s) == Some(bs)
  {
    var bs := if cell.Stored? then cell.bytes else [];
    Hex.HexLength(bs);
    Hex.HexRoundTrip(bs);
  }

  /**
   * The number of bytes the engine stores for a value of a fixed-size column
   * type (an IEEESingle is four, a DateTime is an eight-byte double); 0 for
   * Nil and the types of variable size.
   */
  function StoredWidth(t: Tag): (w: nat)
    ensures w > 0 <==> IsFixed(RetrievalOf(t))
  {
    match t
    case Bit => 1
    case UnsignedByte => 1
    case Short => 2
    case UnsignedShort => 2
    case Long => 4
    case UnsignedLong => 4
    case IEEESingle => 4
    case Currency => 8
    case LongLong => 8
    case IEEEDouble => 8
    case DateTime => 8
    case GUID => 16
    case _ => 0
  }

  /** The accessor of an arm reads a different number of bytes than the column stores exactly for IEEESingle and DateTime. */
  lemma WidthMismatch(t: Tag)
    ensures IsFixed(RetrievalOf(t)) && Width(RetrievalOf(t)) != StoredWidth(t) <==> t == IEEESingle || t == DateTime
  {
  }

  /**
   * A stored value of its column's own width: the IEEESingle arm fails on
   * every one, the DateTime arm hands the writer only its first four bytes
   * as a single, and every other arm reads exactly the stored bytes.
   */
  lemma StoredValueDecodes(t: Tag, bs: seq<byte>)
    requires StoredWidth(t) > 0 && |bs| == StoredWidth(t)
    ensures Decode(t, Stored(bs)).Success? <==> t != IEEESingle
    ensures t == IEEESingle ==> Decode(t, Stored(bs)) == Failure(8)
    ensures t == DateTime ==> Decode(t, Stored(bs)) == Success(FloatValue(bs[..4]))
    ensures t != IEEESingle && t != DateTime ==> Decode(t, Stored(bs)) == Success(Interpret(RetrievalOf(t), bs))
  {
    if t != IEEESingle && t != DateTime {
      assert bs[..Width(RetrievalOf(t))] == bs;
    }
  }
}

