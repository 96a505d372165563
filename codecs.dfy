/**
 * The adapters around the two external codecs.
 *
 * The integer codec (streamvbyte delta coding) and the floating-point codec
 * (fpzip) are foreign libraries that write through raw pointers into buffers
 * the adapters size.  Here each codec is a record of functions: what it writes
 * for given input and capacity, and what it reads back for a given count.
 * What the compressor relies on them for is stated as predicates, passed as
 * hypotheses, never assumed.
 */
module Codecs {
  import opened Types

  /**
   * The worst-case encoded size this model takes for
   * `streamvbyte_max_compressedbytes(n)`: one control byte per four integers
   * plus four data bytes each.  The library header that defines it is not part
   * of this model; the stored stream does not depend on the exact bound.
   */
  function MaxCompressedBytes(n: nat): (r: nat)
  {
    (n + 3) / 4 + 4 * n
  }

  /**
   * `STREAMVBYTE_PADDING`: the bytes past the encoding that the decoder may
   * read ahead into.  The value 16 is this model's assumption: the library
   * header that defines it is not part of this model.
   */
  const Padding: nat := 16

  /** The buffer `CompressValues` lets fpzip write into: `sizeof(float) * N + 1024` bytes. */
  function ValueBufferSize(n: nat): (r: nat)
  {
    4 * n + 1024
  }

  function ByteZeros(n: nat): (r: seq<byte>)
  {
    seq(n, _ => 0)
  }

  /** `std::vector<uint8_t>::resize(n)`: keep the first `n` bytes, and zero-fill any growth. */
  function Resize(s: seq<byte>, n: nat): (r: seq<byte>)
    ensures |r| == n
    ensures forall k :: 0 <= k < n ==> r[k] == if k < |s| then s[k] else 0
  {
    if n <= |s| then s[..n] else s + ByteZeros(n - |s|)
  }

  /** What a codec does to a buffer when it writes `bytes` through a pointer `offset` bytes in. */
  function WriteAt(buf: seq<byte>, offset: nat, bytes: seq<byte>): (r: seq<byte>)
    requires offset + |bytes| <= |buf|
    ensures |r| == |buf|
    ensures forall k :: 0 <= k < |buf| ==>
      r[k] == if offset <= k < offset + |bytes| then bytes[k - offset] else buf[k]
  {
    buf[..offset] + bytes + buf[offset + |bytes|..]
  }

  /**
   * The integer codec: `encode` is what `streamvbyte_delta_encode(xs, n, out, 0)`
   * writes (its length is the count it returns), `decode(b, n)` the `n`
   * integers `streamvbyte_delta_decode(b, out, n, 0)` writes.
   */
  datatype IndexCodec = IndexCodec(
    encode: seq<uint32> -> seq<byte>,
    decode: (seq<byte>, nat) -> seq<uint32>)

  /** The codec stays within the worst-case bound it publishes and fills exactly the count it is asked for. */
  ghost predicate IndexCodecFits(c: IndexCodec)
  {
    && (forall xs :: |c.encode(xs)| <= MaxCompressedBytes(|xs|))
    && (forall b, n :: |c.decode(b, n)| == n)
  }

  /** The stored index stream: the codec's output followed by `Padding` zero bytes. */
  function EncodeIndexes(c: IndexCodec, xs: seq<uint32>): (r: seq<byte>)
  {
    c.encode(xs) + ByteZeros(Padding)
  }

  /** Decoding the stored stream with the original count gives the original integers back. */
  ghost predicate IndexCodecInverts(c: IndexCodec)
  {
    forall xs :: c.decode(EncodeIndexes(c, xs), |xs|) == xs
  }

  /**
   * `CompressIndexes`: size the (initially empty) output vector to the codec's
   * worst case, let the codec write, then resize to the reported length plus
   * the padding.  The result is exactly the encoding followed by zero padding,
   * whichever of the two sizes is larger.
   */
  method CompressIndexes(c: IndexCodec, indexes: seq<uint32>) returns (compressed: seq<byte>, size: nat)
    requires |c.encode(indexes)| <= MaxCompressedBytes(|indexes|)
    ensures size == |compressed| == |c.encode(indexes)| + Padding
    ensures compressed[..|c.encode(indexes)|] == c.encode(indexes)
    ensures forall k :: |c.encode(indexes)| <= k < size ==> compressed[k] == 0
    ensures compressed == EncodeIndexes(c, indexes)
  {
    compressed := Resize([], MaxCompressedBytes(|indexes|));
    var written := c.encode(indexes);
    compressed := WriteAt(compressed, 0, written);
    size := |written| + Padding;
    compressed := Resize(compressed, size);
    assert compressed == EncodeIndexes(c, indexes) by {
      forall k | 0 <= k < size
        ensures compressed[k] == EncodeIndexes(c, indexes)[k]
      {
      }
    }
  }

  /** `DecompressIndexes`: the codec fills the pre-sized index vector. */
  method DecompressIndexes(c: IndexCodec, compressed: seq<byte>, indexes: array<uint32>)
    requires |c.decode(compressed, indexes.Length)| == indexes.Length
    modifies indexes
    ensures indexes[..] == c.decode(compressed, indexes.Length)
  {
    var decoded := c.decode(compressed, indexes.Length);
    forall k | 0 <= k < indexes.Length {
      indexes[k] := decoded[k];
    }
  }

  /** What `fpzip_read` reports: the number of bytes it consumed (0 on failure) and the floats it stored. */
  datatype FloatRead = FloatRead(bytesRead: nat, floats: seq<Float>)

  /**
   * The floating-point codec, with its stream state unfolded into arguments:
   * `writeHeader(n, precision, capacity)` is what `fpzip_write_header` writes
   * for `n` floats (the empty sequence is its report of 0 bytes, a failure),
   * `write(values, precision, capacity)` what `fpzip_write` then writes into
   * the `capacity` bytes left, `readHeader(b)` the count `fpzip_read_header`
   * reports and `read(b, n)` what `fpzip_read` does into a buffer of `n` floats.
   */
  datatype ValueCodec = ValueCodec(
    writeHeader: (nat, int, nat) -> seq<byte>,
    write: (seq<Float>, int, nat) -> seq<byte>,
    readHeader: seq<byte> -> nat,
    read: (seq<byte>, nat) -> FloatRead)

  /** The codec never writes past the capacity it was given and fills the float buffer it reads into. */
  ghost predicate ValueCodecFits(c: ValueCodec)
  {
    && (forall n, p, cap :: |c.writeHeader(n, p, cap)| <= cap)
    && (forall vs, p, cap :: |c.write(vs, p, cap)| <= cap)
    && (forall b, n :: |c.read(b, n).floats| == n)
  }

  /**
   * The stored value stream: the header then the payload, each written into
   * what is left of a `ValueBufferSize` buffer; a write that reports 0 bytes is
   * a codec error.
   */
  function EncodeValues(c: ValueCodec, values: seq<Float>, precision: int): (r: Result<seq<byte>>)
    requires ValueCodecFits(c)
    ensures r.Err? ==> r.error == CodecError
    ensures r.Ok? ==> 0 < |r.value| <= ValueBufferSize(|values|)
  {
    var capacity := ValueBufferSize(|values|);
    var header := c.writeHeader(|values|, precision, capacity);
    if |header| == 0 then Err(CodecError)
    else
      var payload := c.write(values, precision, capacity - |header|);
      if |payload| == 0 then Err(CodecError) else Ok(header + payload)
  }

  /** Reading `n` floats back: a header or payload read that reports 0 bytes is a codec error. */
  function DecodeValues(c: ValueCodec, compressed: seq<byte>, n: nat): (r: Result<seq<Float>>)
    requires ValueCodecFits(c)
    ensures r.Err? ==> r.error == CodecError
    ensures r.Ok? ==> |r.value| == n
  {
    if c.readHeader(compressed) == 0 then Err(CodecError)
    else
      var read := c.read(compressed, n);
      if read.bytesRead == 0 then Err(CodecError) else Ok(read.floats)
  }

  /**
   * At this precision the codec reads back exactly what it wrote (fpzip does
   * so at full precision; at a reduced one the floats come back rounded).
   */
  ghost predicate ValueCodecInverts(c: ValueCodec, precision: int)
  {
    && ValueCodecFits(c)
    && forall vs :: EncodeValues(c, vs, precision).Ok? ==>
         DecodeValues(c, EncodeValues(c, vs, precision).value, |vs|) == Ok(vs)
  }

  /**
   * `CompressValues`: size the (initially empty) output vector to
   * `ValueBufferSize`, let the codec write header and payload, fail if either
   * reports 0 bytes, and otherwise trim to `hs + ds` and return that size.
   */
  method CompressValues(c: ValueCodec, values: seq<Float>, precision: int)
    returns (compressed: seq<byte>, size: Result<nat>)
    requires ValueCodecFits(c)
    ensures size.Err? <==>
      var hs := |c.writeHeader(|values|, precision, ValueBufferSize(|values|))|;
      hs == 0 || |c.write(values, precision, ValueBufferSize(|values|) - hs)| == 0
    ensures size.Err? ==> size.error == CodecError
    ensures size.Ok? ==> size.value == |compressed| <= ValueBufferSize(|values|)
    ensures size.Ok? ==> EncodeValues(c, values, precision) == Ok(compressed)
  {
    var n := |values|;
    var bufferSize := ValueBufferSize(n);
    compressed := Resize([], bufferSize);

    var header := c.writeHeader(n, precision, bufferSize);
    var hs := |header|;
    compressed := WriteAt(compressed, 0, header);
    if hs == 0 {
      return compressed, Err(CodecError);
    }

    var payload := c.write(values, precision, bufferSize - hs);
    var ds := |payload|;
    compressed := WriteAt(compressed, hs, payload);
    if ds == 0 {
      return compressed, Err(CodecError);
    }

    compressed := Resize(compressed, hs + ds);
    size := Ok(hs + ds);
    assert compressed == header + payload by {
      forall k | 0 <= k < hs + ds
        ensures compressed[k] == (header + payload)[k]
      {
      }
    }
  }

  /** `DecompressValues`: read the header, then the floats into the pre-sized value vector. */
  method DecompressValues(c: ValueCodec, compressed: seq<byte>, values: array<Float>) returns (r: Outcome)
    requires ValueCodecFits(c)
    modifies values
    ensures r.Pass? <==> DecodeValues(c, compressed, values.Length).Ok?
    ensures r.Fail? ==> r.error == CodecError
    ensures r.Pass? ==> values[..] == DecodeValues(c, compressed, values.Length).value
  {
    if c.readHeader(compressed) == 0 {
      return Fail(CodecError);
    }
    var read := c.read(compressed, values.Length);
    if read.bytesRead == 0 {
      return Fail(CodecError);
    }
    forall k | 0 <= k < values.Length {
      values[k] := read.floats[k];
    }
    return Pass;
  }
}
