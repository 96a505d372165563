/**
 * The compressor itself: conversion between a dense matrix and its index and
 * value streams, and the four public entry points (`Compress` and
 * `Decompress` for vectors and for matrices).  Each method is tied to the
 * pipeline function of module `Archives` that specifies it, and states the
 * validity and error policy outright.
 */
module Compressor {
  import opened Types
  import opened Sparse
  import opened Codecs
  import opened Archives

  /**
   * `ConvertToCSR`: scan the matrix row by row and collect the linear index
   * (cast to `uint32_t`) and the value of every nonzero entry; a matrix with
   * no rows or no columns is rejected.
   */
  method ConvertToCSR(matrix: array2<Float>) returns (r: Result<(seq<uint32>, seq<Float>)>)
    ensures r.Err? <==> matrix.Length0 == 0 || matrix.Length1 == 0
    ensures r.Err? ==> r.error == InvalidArgument(EmptyMatrixMessage)
    ensures r.Ok? ==>
      && r.value.0 == Truncate(Extract(RowMajor(matrix)).indexes)
      && r.value.1 == Extract(RowMajor(matrix)).values
  {
    if matrix.Length0 == 0 || matrix.Length1 == 0 {
      return Err(InvalidArgument(EmptyMatrixMessage));
    }
    var rows, cols := matrix.Length0, matrix.Length1;
    ghost var d := RowMajor(matrix);

    var indexes: seq<uint32> := [];
    var values: seq<Float> := [];
    for i := 0 to rows
      invariant i * cols <= rows * cols
      invariant indexes == Truncate(Extract(d[..i * cols]).indexes)
      invariant values == Extract(d[..i * cols]).values
    {
      for j := 0 to cols
        invariant i * cols + j <= rows * cols
        invariant indexes == Truncate(Extract(d[..i * cols + j]).indexes)
        invariant values == Extract(d[..i * cols + j]).values
      {
        ghost var k := Linear(i, j, cols);
        RowMajorAt(matrix, i, j);
        assert d[..k + 1] == d[..k] + [d[k]];
        ExtractSnoc(d[..k], d[k]);
        if !IsZero(matrix[i, j]) {
          TruncateSnoc(Extract(d[..k]).indexes, k);
          indexes := indexes + [ToUint32(Linear(i, j, cols))];
          values := values + [matrix[i, j]];
        }
      }
      assert (i + 1) * cols == i * cols + cols;
    }
    assert d[..rows * cols] == d;
    return Ok((indexes, values));
  }

  /**
   * The fill loop of `ConvertFromCSR`: each value is written into the
   * zero-filled matrix at row `index / cols`, column `index % cols`.
   */
  method ScatterInto(matrix: array2<Float>, indexes: seq<uint32>, values: seq<Float>)
    requires |indexes| <= |values|
    requires InRange(indexes, matrix.Length0 * matrix.Length1)
    requires forall r, c :: 0 <= r < matrix.Length0 && 0 <= c < matrix.Length1 ==> matrix[r, c] == PositiveZero
    modifies matrix
    ensures RowMajor(matrix) == Scatter(matrix.Length0 * matrix.Length1, indexes, values)
  {
    var rows, cols := matrix.Length0, matrix.Length1;
    ghost var n := rows * cols;
    ghost var idx: seq<nat> := indexes;
    forall r, c | 0 <= r < rows && 0 <= c < cols
      ensures Linear(r, c, cols) < n
    {
      LinearBound(r, c, rows, cols);
    }

    for i := 0 to |indexes|
      invariant forall r, c :: 0 <= r < rows && 0 <= c < cols ==>
        Linear(r, c, cols) < n && matrix[r, c] == Scatter(n, idx[..i], values)[Linear(r, c, cols)]
    {
      RowColBound(indexes[i], rows, cols);
      var row := indexes[i] / cols;
      var col := indexes[i] % cols;
      matrix[row, col] := values[i];
      forall r, c | 0 <= r < rows && 0 <= c < cols
        ensures Linear(r, c, cols) < n && matrix[r, c] == Scatter(n, idx[..i + 1], values)[Linear(r, c, cols)]
      {
        ScatterCell(rows, cols, idx, values, i, r, c);
      }
    }
    assert idx[..|idx|] == idx;
    RowMajorOf(matrix, Scatter(n, idx, values));
  }

  /**
   * `ConvertFromCSR`: a new zero-filled `rows x cols` matrix in which each
   * value is written at row `index / cols`, column `index % cols`.
   */
  method ConvertFromCSR(indexes: seq<uint32>, values: seq<Float>, compressed: ArchivedMatrix)
    returns (matrix: array2<Float>)
    requires |indexes| <= |values|
    requires InRange(indexes, compressed.rows * compressed.cols)
    ensures fresh(matrix)
    ensures matrix.Length0 == compressed.rows && matrix.Length1 == compressed.cols
    ensures RowMajor(matrix) == Scatter(compressed.rows * compressed.cols, indexes, values)
  {
    matrix := new Float[compressed.rows, compressed.cols]((_, _) => PositiveZero);
    ScatterInto(matrix, indexes, values);
  }

  /**
   * Vector `Compress`: the default (invalid) archive for an empty or all-zero
   * vector; otherwise the nonzero entries' positions and values, encoded.
   */
  method CompressVector(ic: IndexCodec, vc: ValueCodec, vector: seq<Float>, precision: int)
    returns (r: Result<ArchivedVector>)
    requires IndexCodecFits(ic) && ValueCodecFits(vc)
    ensures NonzeroCount(vector) == 0 ==> r == Ok(DefaultVector)
    ensures r.Ok? ==> (r.value.isValid <==> NonzeroCount(vector) > 0)
    ensures r.Ok? && r.value.isValid ==>
      r.value.nonzero == NonzeroCount(vector) > 0 && r.value.size == |vector|
    ensures r.Err? ==> r.error == CodecError
    ensures r == CompressVectorSpec(ic, vc, vector, precision)
  {
    if |vector| == 0 {
      return Ok(DefaultVector);
    }
    if NonzeroCount(vector) == 0 {
      return Ok(DefaultVector);
    }

    var indexes: seq<uint32> := [];
    var values: seq<Float> := [];
    for i := 0 to |vector|
      invariant indexes == Truncate(Extract(vector[..i]).indexes)
      invariant values == Extract(vector[..i]).values
    {
      assert vector[..i + 1] == vector[..i] + [vector[i]];
      ExtractSnoc(vector[..i], vector[i]);
      if !IsZero(vector[i]) {
        TruncateSnoc(Extract(vector[..i]).indexes, i);
        indexes := indexes + [ToUint32(i)];
        values := values + [vector[i]];
      }
    }
    assert vector[..|vector|] == vector;
    ExtractCount(vector);

    var compressedIndexes, _ := CompressIndexes(ic, indexes);
    var compressedValues, valuesSize := CompressValues(vc, values, precision);
    if valuesSize.Err? {
      return Err(valuesSize.error);
    }
    return Ok(ArchivedVector(true, |indexes|, |vector|, compressedIndexes, compressedValues));
  }

  /**
   * Vector `Decompress`: an empty vector for an invalid archive; otherwise a
   * zero-filled vector of the recorded length with each decoded value written
   * at its decoded index.
   */
  method DecompressVector(ic: IndexCodec, vc: ValueCodec, compressed: ArchivedVector)
    returns (r: Result<seq<Float>>)
    requires IndexCodecFits(ic) && ValueCodecFits(vc)
    requires VectorIndexesInRange(ic, compressed)
    ensures !compressed.isValid ==> r == Ok([])
    ensures compressed.isValid ==>
      (r.Ok? <==> DecodeValues(vc, compressed.values, compressed.nonzero).Ok?)
    ensures compressed.isValid && r.Ok? ==> |r.value| == compressed.size
    ensures r == DecompressVectorSpec(ic, vc, compressed)
  {
    if !compressed.isValid {
      return Ok([]);
    }

    var indexes := new uint32[compressed.nonzero](_ => 0);
    DecompressIndexes(ic, compressed.indexes, indexes);

    var values := new Float[compressed.nonzero](_ => PositiveZero);
    var outcome := DecompressValues(vc, compressed.values, values);
    if outcome.Fail? {
      return Err(outcome.error);
    }

    var idx, vals := indexes[..], values[..];
    var vector := new Float[compressed.size](_ => PositiveZero);
    assert vector[..] == Scatter(compressed.size, [], vals);
    for i := 0 to compressed.nonzero
      invariant vector[..] == Scatter(compressed.size, idx[..i], vals)
    {
      vector[idx[i]] := vals[i];
      assert idx[..i + 1] == idx[..i] + [idx[i]];
    }
    assert idx[..compressed.nonzero] == idx;
    return Ok(vector[..]);
  }

  /**
   * Matrix `Compress`: rejects a matrix with a zero dimension; otherwise a
   * valid archive with the matrix's dimensions, its nonzero count and the two
   * encoded streams.
   */
  method CompressMatrix(ic: IndexCodec, vc: ValueCodec, matrix: array2<Float>, precision: int)
    returns (r: Result<ArchivedMatrix>)
    requires IndexCodecFits(ic) && ValueCodecFits(vc)
    ensures r == Err(InvalidArgument(EmptyMatrixMessage)) <==> matrix.Length0 == 0 || matrix.Length1 == 0
    ensures r.Ok? ==>
      && r.value.isValid
      && r.value.rows == matrix.Length0 && r.value.cols == matrix.Length1
      && r.value.nonzero == NonzeroCount(RowMajor(matrix))
    ensures r == CompressMatrixSpec(ic, vc, RowMajor(matrix), matrix.Length0, matrix.Length1, precision)
  {
    var csr :- ConvertToCSR(matrix);
    var indexes, values := csr.0, csr.1;
    ExtractCount(RowMajor(matrix));

    var archived := ArchivedMatrix(true, |values|, matrix.Length0, matrix.Length1, [], []);
    var compressedIndexes, _ := CompressIndexes(ic, indexes);
    archived := archived.(indexes := compressedIndexes);
    var compressedValues, valuesSize := CompressValues(vc, values, precision);
    if valuesSize.Err? {
      return Err(valuesSize.error);
    }
    archived := archived.(values := compressedValues);
    return Ok(archived);
  }

  /**
   * Matrix `Decompress`: rejects an invalid archive with `invalid_argument`;
   * otherwise the decoded streams scattered into a zero-filled matrix of the
   * recorded dimensions.
   */
  method DecompressMatrix(ic: IndexCodec, vc: ValueCodec, compressed: ArchivedMatrix)
    returns (r: Result<array2<Float>>)
    requires IndexCodecFits(ic) && ValueCodecFits(vc)
    requires MatrixIndexesInRange(ic, compressed)
    ensures !compressed.isValid ==> r == Err(InvalidArgument(InvalidMatrixMessage))
    ensures compressed.isValid ==>
      (r.Ok? <==> DecodeValues(vc, compressed.values, compressed.nonzero).Ok?)
    ensures r.Err? ==> DecompressMatrixSpec(ic, vc, compressed) == Err(r.error)
    ensures r.Ok? ==> fresh(r.value)
    ensures r.Ok? ==>
      && r.value.Length0 == compressed.rows && r.value.Length1 == compressed.cols
      && DecompressMatrixSpec(ic, vc, compressed) == Ok(RowMajor(r.value))
  {
    if !compressed.isValid {
      return Err(InvalidArgument(InvalidMatrixMessage));
    }

    var indexes := new uint32[compressed.nonzero](_ => 0);
    DecompressIndexes(ic, compressed.indexes, indexes);

    var values := new Float[compressed.nonzero](_ => PositiveZero);
    var outcome := DecompressValues(vc, compressed.values, values);
    if outcome.Fail? {
      return Err(outcome.error);
    }

    var matrix := ConvertFromCSR(indexes[..], values[..], compressed);
    return Ok(matrix);
  }

  /**
   * Decompressing an archive whose contents are those of `matrix` up to
   * canonical zeros gives a new matrix of the same shape holding every entry
   * of `matrix`, zeros canonicalised to +0.0.
   */
  method RestoreMatrix(ic: IndexCodec, vc: ValueCodec, matrix: array2<Float>, archived: ArchivedMatrix)
    returns (restored: array2<Float>)
    requires IndexCodecFits(ic) && ValueCodecFits(vc)
    requires archived.rows == matrix.Length0 && archived.cols == matrix.Length1
    requires MatrixIndexesInRange(ic, archived)
    requires DecompressMatrixSpec(ic, vc, archived) == Ok(Canonicalize(RowMajor(matrix)))
    ensures fresh(restored)
    ensures restored.Length0 == matrix.Length0 && restored.Length1 == matrix.Length1
    ensures forall i, j :: 0 <= i < matrix.Length0 && 0 <= j < matrix.Length1 ==>
      restored[i, j] == Canonical(matrix[i, j])
  {
    ghost var d := RowMajor(matrix);
    var r := DecompressMatrix(ic, vc, archived);
    assert r.Ok?;
    restored := r.value;
    assert RowMajor(restored) == Canonicalize(d) && RowMajor(matrix) == d;
    RowMajorCanonical(restored, matrix);
  }

  /**
   * Compressing a matrix and decompressing the archive, with codecs that
   * invert themselves, gives back a matrix of the same shape holding every
   * entry of the original, zeros canonicalised to +0.0; only compression can fail.
   */
  method CompressThenDecompressMatrix(ic: IndexCodec, vc: ValueCodec, matrix: array2<Float>, precision: int)
    returns (r: Result<array2<Float>>)
    requires IndexCodecFits(ic) && IndexCodecInverts(ic) && ValueCodecInverts(vc, precision)
    requires matrix.Length0 * matrix.Length1 <= Uint32Modulus
    ensures matrix.Length0 == 0 || matrix.Length1 == 0 ==> r == Err(InvalidArgument(EmptyMatrixMessage))
    ensures r.Err? && matrix.Length0 > 0 && matrix.Length1 > 0 ==> r.error == CodecError
    ensures r.Err? ==>
      CompressMatrixSpec(ic, vc, RowMajor(matrix), matrix.Length0, matrix.Length1, precision) == Err(r.error)
    ensures r.Ok? ==> fresh(r.value)
    ensures r.Ok? ==>
      && r.value.Length0 == matrix.Length0 && r.value.Length1 == matrix.Length1
      && forall i, j :: 0 <= i < matrix.Length0 && 0 <= j < matrix.Length1 ==>
           r.value[i, j] == Canonical(matrix[i, j])
  {
    var archived :- CompressMatrix(ic, vc, matrix, precision);
    MatrixRoundTrip(ic, vc, RowMajor(matrix), matrix.Length0, matrix.Length1, precision);
    var restored := RestoreMatrix(ic, vc, matrix, archived);
    return Ok(restored);
  }
}
