/**
 * The two archive records and the whole compress / decompress pipeline
 * stated as functions of their inputs, with the properties the compressor
 * promises: the sentinel and error policy, nonzero-count fidelity, and the
 * round trip.
 */
module Archives {
  import opened Types
  import opened Sparse
  import opened Codecs

  /** `ArchivedVector`: validity flag, nonzero count, original length and the two byte streams. */
  datatype ArchivedVector = ArchivedVector(
    isValid: bool,
    nonzero: nat,
    size: nat,
    indexes: seq<byte>,
    values: seq<byte>)

  /** The value-initialised `ArchivedVector{}`: invalid, with every field empty. */
  const DefaultVector := ArchivedVector(false, 0, 0, [], [])

  /** `ArchivedMatrix`: validity flag, nonzero count, dimensions and the two byte streams. */
  datatype ArchivedMatrix = ArchivedMatrix(
    isValid: bool,
    nonzero: nat,
    rows: nat,
    cols: nat,
    indexes: seq<byte>,
    values: seq<byte>)

  const EmptyMatrixMessage := "Matrix is empty"
  const InvalidMatrixMessage := "Invalid compressed matrix"

  /** Vector `Compress`: the default archive for an empty or all-zero vector, else the two encoded streams. */
  function CompressVectorSpec(ic: IndexCodec, vc: ValueCodec, v: seq<Float>, precision: int)
    : (r: Result<ArchivedVector>)
    requires ValueCodecFits(vc)
    ensures r.Err? ==> r.error == CodecError
    ensures r.Ok? ==> (r.value.isValid <==> NonzeroCount(v) > 0)
  {
    if |v| == 0 || NonzeroCount(v) == 0 then Ok(DefaultVector)
    else
      var e := Extract(v);
      var idx := Truncate(e.indexes);
      match EncodeValues(vc, e.values, precision)
      case Err(err) => Err(err)
      case Ok(vb) => Ok(ArchivedVector(true, |idx|, |v|, EncodeIndexes(ic, idx), vb))
  }

  /** The decoded indexes of a valid archive address positions of the vector it describes. */
  ghost predicate VectorIndexesInRange(ic: IndexCodec, a: ArchivedVector)
  {
    a.isValid ==> InRange(ic.decode(a.indexes, a.nonzero), a.size)
  }

  /** Vector `Decompress`: an empty vector for an invalid archive, else the scatter of the decoded streams. */
  function DecompressVectorSpec(ic: IndexCodec, vc: ValueCodec, a: ArchivedVector): (r: Result<seq<Float>>)
    requires IndexCodecFits(ic) && ValueCodecFits(vc)
    requires VectorIndexesInRange(ic, a)
    ensures r.Err? ==> a.isValid && r.error == CodecError
    ensures r.Ok? && a.isValid ==> |r.value| == a.size
  {
    if !a.isValid then Ok([])
    else
      match DecodeValues(vc, a.values, a.nonzero)
      case Err(err) => Err(err)
      case Ok(vals) => Ok(Scatter(a.size, ic.decode(a.indexes, a.nonzero), vals))
  }

  /** Matrix `Compress` of a matrix given by its row-major contents `d`. */
  function CompressMatrixSpec(ic: IndexCodec, vc: ValueCodec, d: seq<Float>, rows: nat, cols: nat, precision: int)
    : (r: Result<ArchivedMatrix>)
    requires ValueCodecFits(vc)
    ensures r.Err? ==> r.error == (if rows == 0 || cols == 0 then InvalidArgument(EmptyMatrixMessage) else CodecError)
    ensures r.Ok? ==> r.value.isValid && r.value.rows == rows && r.value.cols == cols
  {
    if rows == 0 || cols == 0 then Err(InvalidArgument(EmptyMatrixMessage))
    else
      var e := Extract(d);
      match EncodeValues(vc, e.values, precision)
      case Err(err) => Err(err)
      case Ok(vb) => Ok(ArchivedMatrix(true, |e.values|, rows, cols, EncodeIndexes(ic, Truncate(e.indexes)), vb))
  }

  ghost predicate MatrixIndexesInRange(ic: IndexCodec, a: ArchivedMatrix)
  {
    a.isValid ==> InRange(ic.decode(a.indexes, a.nonzero), a.rows * a.cols)
  }

  /** Matrix `Decompress`, giving the row-major contents: `invalid_argument` for an invalid archive. */
  function DecompressMatrixSpec(ic: IndexCodec, vc: ValueCodec, a: ArchivedMatrix): (r: Result<seq<Float>>)
    requires IndexCodecFits(ic) && ValueCodecFits(vc)
    requires MatrixIndexesInRange(ic, a)
    ensures r.Err? ==> r.error == (if a.isValid then CodecError else InvalidArgument(InvalidMatrixMessage))
    ensures r.Ok? ==> a.isValid && |r.value| == a.rows * a.cols
  {
    if !a.isValid then Err(InvalidArgument(InvalidMatrixMessage))
    else
      match DecodeValues(vc, a.values, a.nonzero)
      case Err(err) => Err(err)
      case Ok(vals) => Ok(Scatter(a.rows * a.cols, ic.decode(a.indexes, a.nonzero), vals))
  }

  /**
   * Vector compression yields the default (invalid) archive exactly when the
   * vector has no nonzero entry; a valid archive records the nonzero count and
   * the length, and the count never exceeds the length.
   */
  lemma CompressVectorPolicy(ic: IndexCodec, vc: ValueCodec, v: seq<Float>, precision: int)
    requires ValueCodecFits(vc)
    ensures CompressVectorSpec(ic, vc, v, precision) == Ok(DefaultVector) <==> NonzeroCount(v) == 0
    ensures NonzeroCount(v) == 0 <==> forall k :: 0 <= k < |v| ==> IsZero(v[k])
    ensures var r := CompressVectorSpec(ic, vc, v, precision);
      r.Ok? ==> (r.value.isValid <==> NonzeroCount(v) > 0)
    ensures var r := CompressVectorSpec(ic, vc, v, precision);
      r.Ok? && r.value.isValid ==>
        && r.value.nonzero == NonzeroCount(v)
        && r.value.size == |v|
        && 0 < r.value.nonzero <= r.value.size
    ensures var r := CompressVectorSpec(ic, vc, v, precision);
      r.Err? ==> NonzeroCount(v) > 0 && r.error == CodecError
  {
    ExtractCount(v);
    NonzeroCountBound(v);
  }

  /**
   * Matrix compression rejects a zero dimension with `invalid_argument`;
   * otherwise any archive it yields is valid, keeps the dimensions and records
   * the nonzero count of the matrix, which is at most `rows * cols`.
   */
  lemma CompressMatrixPolicy(ic: IndexCodec, vc: ValueCodec, d: seq<Float>, rows: nat, cols: nat, precision: int)
    requires ValueCodecFits(vc)
    requires |d| == rows * cols
    ensures CompressMatrixSpec(ic, vc, d, rows, cols, precision) == Err(InvalidArgument(EmptyMatrixMessage)) <==>
      rows == 0 || cols == 0
    ensures var r := CompressMatrixSpec(ic, vc, d, rows, cols, precision);
      r.Ok? ==>
        && r.value.isValid
        && r.value.rows == rows && r.value.cols == cols
        && r.value.nonzero == NonzeroCount(d) <= rows * cols
    ensures var r := CompressMatrixSpec(ic, vc, d, rows, cols, precision);
      r.Err? && rows > 0 && cols > 0 ==> r.error == CodecError
  {
    ExtractCount(d);
    NonzeroCountBound(d);
  }

  /**
   * An invalid archive decompresses to an empty vector without error, but is
   * rejected with `invalid_argument` on the matrix path.
   */
  lemma InvalidArchivePolicy(ic: IndexCodec, vc: ValueCodec, av: ArchivedVector, am: ArchivedMatrix)
    requires IndexCodecFits(ic) && ValueCodecFits(vc)
    requires !av.isValid && !am.isValid
    ensures DecompressVectorSpec(ic, vc, av) == Ok([])
    ensures DecompressMatrixSpec(ic, vc, am) == Err(InvalidArgument(InvalidMatrixMessage))
  {
  }

  /**
   * Round trip of the vector path: when both codecs invert themselves and the
   * vector is addressable by `uint32_t` indexes, decompressing a compressed
   * vector gives it back with its zeros canonicalised, except that a vector
   * without nonzero entries comes back empty.
   */
  lemma VectorRoundTrip(ic: IndexCodec, vc: ValueCodec, v: seq<Float>, precision: int)
    requires IndexCodecFits(ic) && IndexCodecInverts(ic) && ValueCodecInverts(vc, precision)
    requires |v| <= Uint32Modulus
    requires CompressVectorSpec(ic, vc, v, precision).Ok?
    ensures VectorIndexesInRange(ic, CompressVectorSpec(ic, vc, v, precision).value)
    ensures DecompressVectorSpec(ic, vc, CompressVectorSpec(ic, vc, v, precision).value) ==
      Ok(if NonzeroCount(v) == 0 then [] else Canonicalize(v))
  {
    var a := CompressVectorSpec(ic, vc, v, precision).value;
    if |v| > 0 && NonzeroCount(v) > 0 {
      var e := Extract(v);
      ExtractFitsUint32(v);
      ExtractWellFormed(v);
      assert ic.decode(EncodeIndexes(ic, Truncate(e.indexes)), |Truncate(e.indexes)|) == Truncate(e.indexes);
      assert ic.decode(a.indexes, a.nonzero) == e.indexes;
      assert DecodeValues(vc, EncodeValues(vc, e.values, precision).value, |e.values|) == Ok(e.values);
      ExtractScatterRoundTrip(v);
    } else {
      NonzeroCountBound(v);
    }
  }

  /**
   * Round trip of the matrix path: for a matrix with both dimensions positive
   * and at most 2^32 entries, decompressing what compression produced gives
   * back its row-major contents with zeros canonicalised.
   */
  lemma MatrixRoundTrip(ic: IndexCodec, vc: ValueCodec, d: seq<Float>, rows: nat, cols: nat, precision: int)
    requires IndexCodecFits(ic) && IndexCodecInverts(ic) && ValueCodecInverts(vc, precision)
    requires |d| == rows * cols <= Uint32Modulus
    requires CompressMatrixSpec(ic, vc, d, rows, cols, precision).Ok?
    ensures MatrixIndexesInRange(ic, CompressMatrixSpec(ic, vc, d, rows, cols, precision).value)
    ensures DecompressMatrixSpec(ic, vc, CompressMatrixSpec(ic, vc, d, rows, cols, precision).value) ==
      Ok(Canonicalize(d))
  {
    var a := CompressMatrixSpec(ic, vc, d, rows, cols, precision).value;
    var e := Extract(d);
    ExtractFitsUint32(d);
    ExtractWellFormed(d);
    assert ic.decode(EncodeIndexes(ic, Truncate(e.indexes)), |Truncate(e.indexes)|) == Truncate(e.indexes);
    assert ic.decode(a.indexes, a.nonzero) == e.indexes;
    assert DecodeValues(vc, EncodeValues(vc, e.values, precision).value, |e.values|) == Ok(e.values);
    ExtractScatterRoundTrip(d);
  }
}
