# Sparse pack/unpack pipeline of matrix_compressor, in Dafny

This project models the core of `matrix_compressor` (`sources/matrix_compressor.cpp`):
how a dense `float` vector or row-major matrix, mostly zeros, is turned into an
archive, and how the dense form is rebuilt from it.

- **Sparse extraction** (`ConvertToCSR`, and the loop inside the vector
  `Compress`). The array is scanned in row-major order. Each nonzero entry
  contributes its linear index `i * cols + j`, cast to `uint32_t`, and its value.
- **Scatter reconstruction** (`ConvertFromCSR`, and the loop inside the vector
  `Decompress`). A zero-filled array is allocated. Each value is written back at
  its index; for a matrix that is row `index / cols`, column `index % cols`.
- **Archive assembly and validity policy.** Compressing an empty or all-zero
  vector gives the default, invalid `ArchivedVector`. Decompressing an invalid
  vector archive gives an empty vector without error. Compressing a matrix
  with a zero dimension throws `invalid_argument`, and so does decompressing
  an invalid matrix archive.
- **Buffer sizing and trimming** (`CompressIndexes`, `CompressValues`). Each
  adapter sizes the output vector to an upper bound, lets the codec write
  through a pointer, and resizes the vector to the reported length (plus the
  padding, for the index stream).
  `CompressValues` and `DecompressValues` throw when fpzip reports 0 bytes.

What is modelled, and how:

- A `float` is its IEEE-754 binary32 bit pattern (`Types.Float = bv32`). The
  code only compares entries with zero and copies them. `IsZero` holds of
  +0.0 and -0.0 and of nothing else, because `-0.0 != 0` is false and every
  NaN compares unequal to zero. So a -0.0 entry is dropped and comes back as
  +0.0. The round trip is exact on nonzero entries and turns every zero into +0.0.
- The two external codecs are records of functions (`Codecs.IndexCodec`,
  `Codecs.ValueCodec`). What the compressor needs from them is written as
  predicates and passed as hypotheses:
  - `IndexCodecFits` / `ValueCodecFits`: the codec writes within the capacity
    it was given and fills exactly the count it was asked for.
  - `IndexCodecInverts` / `ValueCodecInverts`: decoding with the right count
    returns what was encoded.
  `precision` is passed to fpzip unchanged. Whether fpzip is lossless at a
  given precision is exactly the `ValueCodecInverts(vc, precision)` hypothesis.
- The dense vector input is a `seq<Float>`. The dense matrix input is an
  `array2<Float>`, read through its row-major flattening `Sparse.RowMajor`.
  Decompression allocates a zero-filled `array` / `array2` and writes into it
  in a loop, as the source does.
- A thrown exception is returned as an error value: `Types.Result` and
  `Types.Outcome`, with the kinds `InvalidArgument(message)` and `CodecError`.
  The messages `"Matrix is empty"` and `"Invalid compressed matrix"` are kept.
- The helpers that write through an output pointer take one of two forms.
  `CompressIndexes` and `CompressValues` start from an empty vector and become
  methods whose out-parameter is that vector's final contents. Their in-place
  preparation (`resize`, the codec's write) is modelled step by step with
  `Codecs.Resize` and `Codecs.WriteAt`. `DecompressIndexes` and
  `DecompressValues` fill a vector the caller has already sized. They become
  methods that fill a caller-allocated `array` they may modify (`modifies`).
- The whole pipeline is also written as functions of its inputs
  (`Archives.CompressVectorSpec`, `DecompressVectorSpec`,
  `CompressMatrixSpec`, `DecompressMatrixSpec`). Each method is proved equal
  to its function, and the round trips are proved about the functions.

Behaviour of the code worth noting:

- The index adapter raises no error in the code. `DecompressIndexes` ignores
  what the codec reports, and `CompressIndexes` does not check its length.
- The stored index stream is the codec's output plus `STREAMVBYTE_PADDING`
  zero bytes, not the codec's output alone. The model takes that padding
  to be 16 bytes. The library header that defines it is not part of this model.
- A nonempty all-zero vector does not survive the round trip: it comes back
  empty, because its archive is the invalid sentinel. `Archives.VectorRoundTrip`
  states this case.

## Model

| member | source | states |
|---|---|---|
| `Types.IsZero` | sources/matrix_compressor.cpp:33 | the `!= 0` test on a float, read as a bit pattern: only +0.0 and -0.0 compare equal to zero, and every NaN counts as nonzero |
| `Types.ToUint32` | sources/matrix_compressor.cpp:34 | `static_cast<uint32_t>` reduces modulo 2^32 and leaves every value below 2^32 unchanged |
| `Sparse.ExtractWellFormed` | sources/matrix_compressor.cpp:31-38 | the extracted indexes ascend strictly and stay below the scanned length; every extracted value is nonzero and equals the entry at its index |
| `Sparse.ExtractComplete` | sources/matrix_compressor.cpp:80-85 | a position is extracted if and only if its entry is nonzero |
| `Sparse.ExtractCount` | sources/matrix_compressor.cpp:21 | the number of extracted pairs equals the number of nonzero entries (`nonZeros()`) |
| `Sparse.NonzeroCountBound` | sources/matrix_compressor.cpp:67-69 | the nonzero count is at most the length, and is 0 exactly when every entry is zero |
| `Sparse.ExtractFitsUint32` | sources/matrix_compressor.cpp:34 | for at most 2^32 entries, the cast to `uint32_t` keeps every extracted index |
| `Sparse.LinearInverts` | sources/matrix_compressor.cpp:51-52 | `/ cols` and `% cols` recover row `i` and column `j` from the offset `i * cols + j` |
| `Sparse.LinearBound` | sources/matrix_compressor.cpp:34 | the offset of every entry of a `rows x cols` matrix is below `rows * cols` |
| `Sparse.RowColBound` | sources/matrix_compressor.cpp:51-54 | an offset below `rows * cols` maps to a row below `rows`, and row and column give the offset back |
| `Sparse.RowMajorAt` | sources/matrix_compressor.cpp:33-35 | entry `(i, j)` is element `i * cols + j` of the row-major flattening |
| `Sparse.Linear` | sources/matrix_compressor.cpp:34 | the row-major offset `i * matrix.columns() + j`; `LinearInverts`, `LinearBound` and `RowColBound` state how it relates to `/ cols` and `% cols` |
| `Sparse.EntryAt` | sources/matrix_compressor.cpp:54 | the dense access `matrix(row, col)` at the row and column of an offset below `rows * cols` |
| `Sparse.RowMajor` | sources/matrix_compressor.cpp:33-35 | the row-major scan order of `matrix(i, j)`: a sequence of `rows * cols` entries, with entry `(i, j)` at offset `i * cols + j` (`RowMajorAt`) |
| `Sparse.ScatteredCellAt` | sources/matrix_compressor.cpp:50-55 | for distinct indexes, the matrix cell at row `idx[t] / cols`, column `idx[t] % cols` holds `values[t]`, and that row lies below `rows` |
| `Sparse.ScatteredMatrixAt` | sources/matrix_compressor.cpp:46-55 | cell by cell, a matrix built by `ConvertFromCSR` from distinct indexes holds each value at row `idx / cols`, column `idx % cols`, and +0.0 in every other cell |
| `Sparse.NonzeroCount` | sources/matrix_compressor.cpp:21 | `nonZeros()`: the number of entries that compare unequal to zero; its bound and its agreement with extraction are `NonzeroCountBound` and `ExtractCount` |
| `Sparse.Extract` | sources/matrix_compressor.cpp:31-38 | the scan keeping the position and value of every nonzero entry in index order, with index and value streams of equal length; its properties are `ExtractWellFormed`, `ExtractComplete` and `ExtractCount` |
| `Sparse.Truncate` | sources/matrix_compressor.cpp:34 | `static_cast<uint32_t>` applied to every extracted index (`ToUint32`); `ExtractFitsUint32` states when it changes nothing |
| `Sparse.Scatter` | sources/matrix_compressor.cpp:50-55 | a zero-filled sequence of length `n` with each value written at its index in order, the last write winning; `ScatterAt` and `ExtractScatterRoundTrip` state what it holds |
| `Sparse.ScatterCell` | sources/matrix_compressor.cpp:51-54 | one more write changes exactly the cell at row `index / cols`, column `index % cols`, and no other |
| `Sparse.RowMajorOf` | sources/matrix_compressor.cpp:46-55 | a matrix whose every cell holds the element of `s` at its offset has `s` as its row-major contents |
| `Sparse.ScatterAt` | sources/matrix_compressor.cpp:117-120 | with distinct indexes, scatter puts `values[t]` at `indexes[t]` and +0.0 at every other position |
| `Sparse.ExtractScatterRoundTrip` | sources/matrix_compressor.cpp:46-55 | scattering what extraction produced gives back the input with zeros canonicalised to +0.0 |
| `Sparse.RowMajorCanonical` | sources/matrix_compressor.cpp:46-47 | two matrices of one shape whose flattenings agree up to canonical zeros agree entry by entry |
| `Codecs.MaxCompressedBytes` | sources/matrix_compressor.cpp:166 | the size the index buffer is given before encoding: `streamvbyte_max_compressedbytes(n)`, taken here as one control byte per four integers plus four data bytes each |
| `Codecs.EncodeIndexes` | sources/matrix_compressor.cpp:169-175 | the stored index stream: the codec's output followed by the zero padding (`CompressIndexes` is proved to produce exactly it) |
| `Codecs.ValueBufferSize` | sources/matrix_compressor.cpp:194 | the value buffer `sizeof(float) * N + 1024`, with 4-byte floats |
| `Codecs.Resize` | sources/matrix_compressor.cpp:175 | `resize(n)` gives `n` bytes, keeps the old prefix and zero-fills any growth |
| `Codecs.WriteAt` | sources/matrix_compressor.cpp:170-171 | a codec write through a pointer replaces exactly the written range and keeps the length |
| `Codecs.CompressIndexes` | sources/matrix_compressor.cpp:164-181 | result is the codec's bytes followed by 16 zero bytes; the returned size is the encoded length plus the padding, and is the result's length |
| `Codecs.DecompressIndexes` | sources/matrix_compressor.cpp:183-188 | the pre-sized index vector holds exactly what the codec decodes for its size |
| `Codecs.EncodeValues` | sources/matrix_compressor.cpp:193-221 | a stored value stream is nonempty and fits the `4 * N + 1024` buffer; every failure is a codec error |
| `Codecs.DecodeValues` | sources/matrix_compressor.cpp:232-243 | a successful read yields exactly the requested count of floats; every failure is a codec error |
| `Codecs.CompressValues` | sources/matrix_compressor.cpp:190-228 | fails with a codec error exactly when the header write or the payload write reports 0 bytes; otherwise it trims to `hs + ds` within the buffer and returns that size |
| `Codecs.DecompressValues` | sources/matrix_compressor.cpp:230-247 | fails with a codec error exactly when the header read or the payload read reports 0; otherwise the value vector holds the decoded floats |
| `Archives.DefaultVector` | sources/matrix_compressor.cpp:64-68 | the value-initialised archive `return {}`: invalid, with zero counts and empty streams |
| `Archives.CompressVectorSpec` | sources/matrix_compressor.cpp:60-98 | vector `Compress` as a function: every failure is a codec error, and a result is a valid archive exactly when the vector has a nonzero entry |
| `Archives.DecompressVectorSpec` | sources/matrix_compressor.cpp:100-123 | vector `Decompress` as a function: only a valid archive can fail, and then with a codec error; decompressing a valid archive gives a vector of the recorded length |
| `Archives.CompressMatrixSpec` | sources/matrix_compressor.cpp:125-140 | matrix `Compress` as a function: a failure is `invalid_argument` "Matrix is empty" on a zero dimension and a codec error otherwise; a result is valid and keeps the dimensions |
| `Archives.DecompressMatrixSpec` | sources/matrix_compressor.cpp:142-162 | matrix `Decompress` as a function: a failure is `invalid_argument` "Invalid compressed matrix" for an invalid archive and a codec error otherwise; a result comes from a valid archive and has `rows * cols` entries |
| `Archives.CompressVectorPolicy` | sources/matrix_compressor.cpp:63-97 | the vector archive is the default invalid one exactly when there is no nonzero entry; any archive it yields is valid exactly when the vector has a nonzero entry; a valid one records the nonzero count and the length, with `0 < nonzero <= size` |
| `Archives.CompressMatrixPolicy` | sources/matrix_compressor.cpp:127-130 | matrix compression fails with `invalid_argument` exactly on a zero dimension; otherwise every archive is valid, keeps the dimensions and records `nonzero` = nonzero count `<= rows * cols` |
| `Archives.InvalidArchivePolicy` | sources/matrix_compressor.cpp:102-104 | an invalid archive gives an empty vector on the vector path and `invalid_argument` on the matrix path |
| `Archives.VectorRoundTrip` | sources/matrix_compressor.cpp:100-122 | with inverting codecs and at most 2^32 entries, decompress after compress gives the vector with zeros canonicalised, or the empty vector when it had no nonzero entry |
| `Archives.MatrixRoundTrip` | sources/matrix_compressor.cpp:142-161 | with inverting codecs and at most 2^32 entries, decompress after compress gives the row-major contents with zeros canonicalised |
| `Compressor.ConvertToCSR` | sources/matrix_compressor.cpp:13-41 | fails with `invalid_argument` exactly on a zero dimension; otherwise returns the cast linear indexes and the values of the nonzero entries in row-major order |
| `Compressor.ScatterInto` | sources/matrix_compressor.cpp:50-55 | the fill loop: writing each value at row `index / cols`, column `index % cols` of a zero-filled matrix makes its row-major contents the scatter of the values at their indexes |
| `Compressor.ConvertFromCSR` | sources/matrix_compressor.cpp:43-58 | returns a new `rows x cols` matrix whose row-major contents are the scatter of the values at their indexes into zeros |
| `Compressor.CompressVector` | sources/matrix_compressor.cpp:60-98 | the default archive when there is no nonzero entry; any archive is valid exactly when there is a nonzero entry; a valid archive has `nonzero` = nonzero count and `size` = length; failures are codec errors; equals `CompressVectorSpec` |
| `Compressor.DecompressVector` | sources/matrix_compressor.cpp:100-123 | empty vector for an invalid archive; otherwise fails exactly when value decoding fails, else returns a vector of length `size`; equals `DecompressVectorSpec` |
| `Compressor.CompressMatrix` | sources/matrix_compressor.cpp:125-140 | `invalid_argument` exactly on a zero dimension; every archive is valid with the matrix's dimensions and nonzero count; equals `CompressMatrixSpec` |
| `Compressor.DecompressMatrix` | sources/matrix_compressor.cpp:142-162 | `invalid_argument` for an invalid archive; otherwise fails exactly when value decoding fails, else returns a new matrix of the recorded shape whose flattening is `DecompressMatrixSpec` |
| `Compressor.RestoreMatrix` | sources/matrix_compressor.cpp:142-161 | decompressing an archive whose contents are those of a matrix up to canonical zeros gives a new matrix of its shape holding `Canonical(m[i, j])` at every entry |
| `Compressor.CompressThenDecompressMatrix` | sources/matrix_compressor.cpp:125-161 | with inverting codecs, compress then decompress returns a new matrix of the same shape holding `Canonical(m[i, j])` at every entry, and fails only where compression fails |

## Left out

- The internals of streamvbyte delta coding and of fpzip. These are foreign C libraries that work through raw-pointer stream contexts. They appear only as the abstract functions of `Codecs.IndexCodec` / `Codecs.ValueCodec`, and what the model needs from them is stated as hypotheses.
- Precision and reconstruction error. `precision` is passed to fpzip unchanged. Error bounds at reduced precision depend on fpzip's floating-point numerics, which are not modelled.
- The text of the `std::runtime_error`, taken from `fpzip_errstr[fpzip_errno]`. It comes from the codec and is reduced to `CodecError`.
- `fpzip_write_close` / `fpzip_read_close` and the release of the codec's stream objects on every exit path. They hold no observable result.
- Blaze containers beyond dense row-major element access. `nonZeros()` is taken to count the entries that compare unequal to zero, like the scan. The `reserve` calls only set capacity and are omitted.
- The meaningless `return 0` of `DecompressIndexes` / `DecompressValues`, the unused size locals of vector `Compress`, the unused `compressed_values` local of matrix `Compress`, and the commented-out logging.
- The stray `0.0f:` at line 47 is read as a zero fill.
- Malformed archives whose decoded indexes fall outside the vector or matrix. The decompression methods require the decoded indexes to be in range (`VectorIndexesInRange`, `MatrixIndexesInRange`), where the source would write out of bounds.
- `Codecs.DecompressValues`: fpzip reads as many floats as its header announces. The model has it fill the pre-sized value vector of `nonzero` floats, which is the same count for any archive the compressor produced. On failure the call makes no claim about the vector's contents, since the exception discards them.
- `Codecs.CompressIndexes`: requires the encoding to fit the `streamvbyte_max_compressedbytes` bound, the codec's published worst case. An encoding beyond it would overrun the buffer in the source. `CompressIndexes` and `CompressValues` start from the empty vector that both callers pass in.
- The `int` loop counters of the scans (`auto i = 0`). They would overflow past `INT_MAX` rows or elements. Also the narrowing of `indexes.size()` to `uint32_t` in `streamvbyte_max_compressedbytes`. Counters are unbounded here.
- The round-trip lemmas require at most 2^32 entries. Beyond that the `uint32_t` cast of line 34 makes linear indexes wrap and collide, so reconstruction is wrong. The extraction methods model the wrap explicitly through `ToUint32`.
