/**
 * The column-type switch as it was evidently meant to read the two
 * floating-point types: an IEEESingle column through the four-byte float
 * accessor and a DateTime column, which the engine stores as a double,
 * through the eight-byte double accessor. Every other arm is unchanged.
 */
module IntendedDecode {
  import opened Wrappers
  import opened Bytes
  import opened ColumnTypes

  /** The switch with the accessors of IEEESingle and DateTime exchanged. */
  function IntendedRetrievalOf(t: Tag): (k: Retrieval)
    ensures IsFixed(k) <==> IsFixed(RetrievalOf(t))
    ensures IsFixed(k) ==> Width(k) == StoredWidth(t)
    ensures !(t.IEEESingle? || t.DateTime?) ==> k == RetrievalOf(t)
  {
    match t
    case IEEESingle => AsFloat
    case DateTime => AsDouble
    case _ => RetrievalOf(t)
  }

  /** What the corrected switch hands the writer; it agrees with Decode on every other tag. */
  function IntendedDecodeOf(t: Tag, cell: Cell): (r: Result<DecodedValue, nat>)
    ensures !(t.IEEESingle? || t.DateTime?) ==> r == Decode(t, cell)
    ensures t.IEEESingle? && r.Success? && cell.Stored? ==> r.value.FloatValue?
    ensures t.DateTime? && r.Success? && cell.Stored? ==> r.value.DoubleValue?
  {
    Retrieve(IntendedRetrievalOf(t), cell)
  }

  /**
   * Every stored value of its column's own width decodes, and the accessor
   * reads all of it: except for a Bit, whose non-zero bytes all mean true,
   * the reference encoder gives back exactly the stored bytes.
   */
  lemma IntendedStoredValueDecodes(t: Tag, bs: seq<byte>)
    requires StoredWidth(t) > 0 && |bs| == StoredWidth(t)
    ensures IntendedDecodeOf(t, Stored(bs)) == Success(Interpret(IntendedRetrievalOf(t), bs))
    ensures t != Bit ==> EncodeValue(IntendedRetrievalOf(t), IntendedDecodeOf(t, Stored(bs)).value) == bs
  {
    var k := IntendedRetrievalOf(t);
    assert bs[..Width(k)] == bs;
    match k
    case AsInt16 => EncodeSignedOf(bs);
    case AsInt32 => EncodeSignedOf(bs);
    case AsInt64 => EncodeSignedOf(bs);
    case AsUInt16 => EncodeUnsigned(bs);
    case AsUInt32 => EncodeUnsigned(bs);
    case AsByte => assert [bs[0]] == bs;
    case _ =>
  }
}
