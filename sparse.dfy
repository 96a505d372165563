/**
 * The specification of sparse extraction and scatter reconstruction.
 *
 * A dense vector is a sequence of floats; a dense matrix is viewed through its
 * row-major flattening, in which entry `(i, j)` of an `R x C` matrix sits at
 * the linear index `i * C + j`.  Extraction keeps the nonzero entries in scan
 * order together with their linear indices; scatter writes values back into a
 * zero-filled array.
 */
module Sparse {
  import opened Types

  /** Index and value streams in compressed-sparse (CSR-like) form. */
  datatype Csr = Csr(indexes: seq<nat>, values: seq<Float>)

  /** The linear offset of entry `(i, j)` in a row-major matrix with `cols` columns. */
  function Linear(i: nat, j: nat, cols: nat): (k: nat)
  {
    i * cols + j
  }

  /** Multiplying by a positive factor keeps the sign, and a magnitude of at least one keeps the factor. */
  lemma MulSign(x: int, c: nat)
    ensures x >= 0 ==> x * c >= 0
    ensures x >= 1 ==> x * c >= c
    ensures x <= -1 ==> x * c + c <= 0
  {
    if x >= 1 {
      MulMonotone(1, x, c);
    } else if x <= -1 {
      MulMonotone(x, -1, c);
    } else {
      assert x == 0;
    }
  }

  lemma {:induction false} MulMonotone(a: int, b: int, c: nat)
    requires a <= b
    ensures a * c <= b * c
    decreases c
  {
    if c > 0 {
      MulMonotone(a, b, c - 1);
    }
  }

  /** Division and remainder by `cols` recover the row and column of a linear offset. */
  lemma LinearInverts(i: nat, j: nat, cols: nat)
    requires j < cols
    ensures Linear(i, j, cols) / cols == i && Linear(i, j, cols) % cols == j
  {
    var k := Linear(i, j, cols);
    var q, r := k / cols, k % cols;
    assert (q - i) * cols == j - r;
    MulSign(q - i, cols);
  }

  /** Every entry of a `rows x cols` matrix has a linear offset below `rows * cols`. */
  lemma LinearBound(i: nat, j: nat, rows: nat, cols: nat)
    requires i < rows && j < cols
    ensures Linear(i, j, cols) < rows * cols
  {
    MulSign(rows - i, cols);
    assert (rows - i) * cols == rows * cols - i * cols;
  }

  /** A linear offset below `rows * cols` names an entry inside the matrix. */
  lemma RowColBound(k: nat, rows: nat, cols: nat)
    requires k < rows * cols
    ensures cols > 0 && k / cols < rows && Linear(k / cols, k % cols, cols) == k
  {
    MulSign(rows, cols);
    var q := k / cols;
    MulSign(q - rows, cols);
    assert (q - rows) * cols == q * cols - rows * cols;
  }

  /** Inside a matrix, a cell sits at a given offset exactly when its row and column are that offset's. */
  lemma CellAt(r: nat, c: nat, k: nat, rows: nat, cols: nat)
    requires r < rows && c < cols && k < rows * cols
    ensures Linear(r, c, cols) < rows * cols
    ensures Linear(r, c, cols) == k <==> r == k / cols && c == k % cols
  {
    LinearBound(r, c, rows, cols);
    LinearInverts(r, c, cols);
    RowColBound(k, rows, cols);
  }

  /**
   * One more write of the scatter, seen from a cell: the cell at row `r`,
   * column `c` takes the written value exactly when it is the cell that the
   * offset `idx[i]` names, and keeps its entry otherwise.
   */
  lemma ScatterCell(rows: nat, cols: nat, idx: seq<nat>, vals: seq<Float>, i: nat, r: nat, c: nat)
    requires i < |idx| <= |vals| && InRange(idx, rows * cols)
    requires r < rows && c < cols
    ensures InRange(idx[..i], rows * cols) && InRange(idx[..i + 1], rows * cols)
    ensures Linear(r, c, cols) < rows * cols
    ensures Scatter(rows * cols, idx[..i + 1], vals)[Linear(r, c, cols)] ==
      if r == idx[i] / cols && c == idx[i] % cols then vals[i]
      else Scatter(rows * cols, idx[..i], vals)[Linear(r, c, cols)]
  {
    ScatterSnoc(rows * cols, idx, vals, i);
    CellAt(r, c, idx[i], rows, cols);
  }

  /** A matrix whose every cell holds the entry of `s` at the cell's offset has `s` as its row-major contents. */
  lemma RowMajorOf(m: array2<Float>, s: seq<Float>)
    requires |s| == m.Length0 * m.Length1
    requires forall i, j :: 0 <= i < m.Length0 && 0 <= j < m.Length1 ==>
      Linear(i, j, m.Length1) < |s| && m[i, j] == s[Linear(i, j, m.Length1)]
    ensures RowMajor(m) == s
  {
    var d := RowMajor(m);
    forall k | 0 <= k < |s|
      ensures d[k] == s[k]
    {
      RowColBound(k, m.Length0, m.Length1);
      var i, j := k / m.Length1, k % m.Length1;
      assert m[i, j] == s[Linear(i, j, m.Length1)];
      assert d[k] == EntryAt(m, k) == m[i, j];
    }
  }

  /** Extending the written prefix by one index adds that one write to the scatter. */
  lemma ScatterSnoc(n: nat, idx: seq<nat>, vals: seq<Float>, i: nat)
    requires i < |idx| <= |vals| && InRange(idx, n)
    ensures InRange(idx[..i], n) && InRange(idx[..i + 1], n)
    ensures Scatter(n, idx[..i + 1], vals) == Scatter(n, idx[..i], vals)[idx[i] := vals[i]]
  {
    assert idx[..i + 1][..i] == idx[..i];
  }

  /** The entry at linear offset `k` of a matrix, in row-major order. */
  ghost function EntryAt(m: array2<Float>, k: nat): (f: Float)
    reads m
    requires k < m.Length0 * m.Length1
  {
    RowColBound(k, m.Length0, m.Length1);
    m[k / m.Length1, k % m.Length1]
  }

  /** The row-major flattening of a matrix. */
  ghost function RowMajor(m: array2<Float>): (d: seq<Float>)
    reads m
    ensures |d| == m.Length0 * m.Length1
  {
    seq(m.Length0 * m.Length1, k requires 0 <= k < m.Length0 * m.Length1 reads m => EntryAt(m, k))
  }

  /** Entry `(i, j)` of a matrix is element `i * cols + j` of its flattening. */
  lemma RowMajorAt(m: array2<Float>, i: nat, j: nat)
    requires i < m.Length0 && j < m.Length1
    ensures Linear(i, j, m.Length1) < |RowMajor(m)|
    ensures RowMajor(m)[Linear(i, j, m.Length1)] == m[i, j]
  {
    LinearBound(i, j, m.Length0, m.Length1);
    LinearInverts(i, j, m.Length1);
  }

  /** Two matrices of the same shape whose flattenings agree up to canonical zeros agree entry by entry. */
  lemma DivModBounds(k: nat, cols: nat)
    requires cols > 0
    ensures 0 <= k / cols && 0 <= k % cols < cols
  {
  }

  /** The cell named by the offset `idx[t]` of a scattered matrix holds `vals[t]`, when the indexes are distinct. */
  lemma ScatteredCellAt(m: array2<Float>, idx: seq<nat>, vals: seq<Float>, t: nat)
    requires |idx| <= |vals| && InRange(idx, m.Length0 * m.Length1) && Distinct(idx)
    requires RowMajor(m) == Scatter(m.Length0 * m.Length1, idx, vals)
    requires t < |idx|
    ensures m.Length1 > 0 && idx[t] / m.Length1 < m.Length0
    ensures m[idx[t] / m.Length1, idx[t] % m.Length1] == vals[t]
  {
    var rows, cols, k := m.Length0, m.Length1, idx[t];
    RowColBound(k, rows, cols);
    DivModBounds(k, cols);
    RowMajorAt(m, k / cols, k % cols);
    ScatterAt(rows * cols, idx, vals);
  }

  /**
   * Cell by cell, a matrix whose row-major contents are the scatter of
   * distinct indexes holds `vals[t]` at row `idx[t] / cols`, column
   * `idx[t] % cols`, and +0.0 in every cell whose offset is not an index.
   */
  lemma ScatteredMatrixAt(m: array2<Float>, idx: seq<nat>, vals: seq<Float>)
    requires |idx| <= |vals| && InRange(idx, m.Length0 * m.Length1) && Distinct(idx)
    requires RowMajor(m) == Scatter(m.Length0 * m.Length1, idx, vals)
    ensures forall t :: 0 <= t < |idx| ==>
      m.Length1 > 0 && idx[t] / m.Length1 < m.Length0 &&
      m[idx[t] / m.Length1, idx[t] % m.Length1] == vals[t]
    ensures forall i, j :: 0 <= i < m.Length0 && 0 <= j < m.Length1 && Linear(i, j, m.Length1) !in idx ==>
      m[i, j] == PositiveZero
  {
    forall t | 0 <= t < |idx| {
      ScatteredCellAt(m, idx, vals, t);
    }
    forall i, j | 0 <= i < m.Length0 && 0 <= j < m.Length1 && Linear(i, j, m.Length1) !in idx
      ensures m[i, j] == PositiveZero
    {
      RowMajorAt(m, i, j);
      ScatterAt(m.Length0 * m.Length1, idx, vals);
    }
  }

  lemma RowMajorCanonical(a: array2<Float>, b: array2<Float>)
    requires a.Length0 == b.Length0 && a.Length1 == b.Length1
    requires RowMajor(a) == Canonicalize(RowMajor(b))
    ensures forall i, j :: 0 <= i < a.Length0 && 0 <= j < a.Length1 ==> a[i, j] == Canonical(b[i, j])
  {
    forall i, j | 0 <= i < a.Length0 && 0 <= j < a.Length1
      ensures a[i, j] == Canonical(b[i, j])
    {
      RowMajorAt(a, i, j);
      RowMajorAt(b, i, j);
    }
  }

  /** Number of nonzero entries (Blaze's `nonZeros()` on a dense container), counted from the front. */
  function NonzeroCount(d: seq<Float>): (r: nat)
  {
    if |d| == 0 then 0 else (if IsZero(d[0]) then 0 else 1) + NonzeroCount(d[1..])
  }

  lemma {:induction false} NonzeroCountSnoc(d: seq<Float>, x: Float)
    ensures NonzeroCount(d + [x]) == NonzeroCount(d) + (if IsZero(x) then 0 else 1)
  {
    if |d| > 0 {
      assert (d + [x])[1..] == d[1..] + [x];
      NonzeroCountSnoc(d[1..], x);
    }
  }

  lemma {:induction false} NonzeroCountBound(d: seq<Float>)
    ensures NonzeroCount(d) <= |d|
    ensures NonzeroCount(d) == 0 <==> forall k :: 0 <= k < |d| ==> IsZero(d[k])
  {
    if |d| > 0 {
      NonzeroCountBound(d[1..]);
      assert forall k :: 1 <= k < |d| ==> d[k] == d[1..][k - 1];
    }
  }

  /**
   * Sparse extraction as a scan in index order: position `k` contributes the
   * pair `(k, d[k])` exactly when `d[k]` is nonzero.
   */
  function Extract(d: seq<Float>): (r: Csr)
    ensures |r.indexes| == |r.values|
    decreases |d|
  {
    if |d| == 0 then Csr([], [])
    else
      var p := Extract(d[..|d| - 1]);
      var x := d[|d| - 1];
      if IsZero(x) then p else Csr(p.indexes + [|d| - 1], p.values + [x])
  }

  /** Extending the scanned prefix by one entry extends the streams by at most that entry. */
  lemma ExtractSnoc(d: seq<Float>, x: Float)
    ensures Extract(d + [x]) ==
      if IsZero(x) then Extract(d)
      else Csr(Extract(d).indexes + [|d|], Extract(d).values + [x])
  {
    assert (d + [x])[..|d|] == d;
  }

  ghost predicate StrictlyAscending(s: seq<nat>)
  {
    forall a, b :: 0 <= a < b < |s| ==> s[a] < s[b]
  }

  /**
   * The extracted streams have equal length, the indexes ascend strictly and
   * stay below the length of the input, and every value is the nonzero entry
   * found at its index.
   */
  lemma {:induction false} ExtractWellFormed(d: seq<Float>)
    ensures StrictlyAscending(Extract(d).indexes)
    ensures forall t :: 0 <= t < |Extract(d).indexes| ==>
      Extract(d).indexes[t] < |d| &&
      !IsZero(Extract(d).values[t]) &&
      Extract(d).values[t] == d[Extract(d).indexes[t]]
  {
    if |d| > 0 {
      var q := d[..|d| - 1];
      ExtractWellFormed(q);
      assert forall k :: 0 <= k < |q| ==> q[k] == d[k];
    }
  }

  /** An index is extracted if and only if the entry there is nonzero. */
  lemma {:induction false} ExtractComplete(d: seq<Float>, k: nat)
    requires k < |d|
    ensures k in Extract(d).indexes <==> !IsZero(d[k])
  {
    var q := d[..|d| - 1];
    ExtractWellFormed(q);
    if k < |d| - 1 {
      ExtractComplete(q, k);
      assert q[k] == d[k];
    }
  }

  /** The number of extracted entries is the number of nonzero entries. */
  lemma {:induction false} ExtractCount(d: seq<Float>)
    ensures |Extract(d).indexes| == NonzeroCount(d)
  {
    if |d| > 0 {
      var q := d[..|d| - 1];
      ExtractCount(q);
      assert q + [d[|d| - 1]] == d;
      NonzeroCountSnoc(q, d[|d| - 1]);
    }
  }

  /** `static_cast<uint32_t>` applied to every index. */
  function Truncate(ks: seq<nat>): (r: seq<uint32>)
  {
    seq(|ks|, t requires 0 <= t < |ks| => ToUint32(ks[t]))
  }

  lemma TruncateSnoc(ks: seq<nat>, k: nat)
    ensures Truncate(ks + [k]) == Truncate(ks) + [ToUint32(k)]
  {
  }

  /** When every index is below 2^32 the cast changes nothing. */
  lemma TruncateFits(ks: seq<nat>)
    requires forall t :: 0 <= t < |ks| ==> ks[t] < Uint32Modulus
    ensures Truncate(ks) == ks
  {
  }

  /** The extracted indexes of a sequence no longer than 2^32 survive the cast to `uint32_t`. */
  lemma ExtractFitsUint32(d: seq<Float>)
    requires |d| <= Uint32Modulus
    ensures Truncate(Extract(d).indexes) == Extract(d).indexes
  {
    ExtractWellFormed(d);
    TruncateFits(Extract(d).indexes);
  }

  /** The dense sequence with every zero replaced by +0.0. */
  function Canonicalize(d: seq<Float>): (r: seq<Float>)
  {
    seq(|d|, k requires 0 <= k < |d| => Canonical(d[k]))
  }

  ghost predicate InRange(idx: seq<nat>, n: nat)
  {
    forall t :: 0 <= t < |idx| ==> idx[t] < n
  }

  ghost predicate Distinct(idx: seq<nat>)
  {
    forall a, b :: 0 <= a < b < |idx| ==> idx[a] != idx[b]
  }

  /**
   * Scatter reconstruction: a zero-filled sequence of length `n` in which
   * `vals[t]` is written at `idx[t]`, for `t` in increasing order (the last
   * write to a position wins).
   */
  function Scatter(n: nat, idx: seq<nat>, vals: seq<Float>): (r: seq<Float>)
    requires |idx| <= |vals|
    requires InRange(idx, n)
    ensures |r| == n
  {
    if |idx| == 0 then seq(n, _ => PositiveZero)
    else Scatter(n, idx[..|idx| - 1], vals)[idx[|idx| - 1] := vals[|idx| - 1]]
  }

  /**
   * With pairwise distinct indexes, scatter puts `vals[t]` at `idx[t]` and
   * leaves +0.0 everywhere else.
   */
  lemma {:induction false} ScatterAt(n: nat, idx: seq<nat>, vals: seq<Float>)
    requires |idx| <= |vals| && InRange(idx, n) && Distinct(idx)
    ensures forall t :: 0 <= t < |idx| ==> Scatter(n, idx, vals)[idx[t]] == vals[t]
    ensures forall k :: 0 <= k < n && k !in idx ==> Scatter(n, idx, vals)[k] == PositiveZero
  {
    if |idx| > 0 {
      var q := idx[..|idx| - 1];
      ScatterAt(n, q, vals);
      forall k | 0 <= k < n && k !in idx
        ensures Scatter(n, idx, vals)[k] == PositiveZero
      {
        assert forall t :: 0 <= t < |q| ==> q[t] == idx[t];
      }
    }
  }

  /**
   * Scattering what extraction produced gives back the input, with every zero
   * canonicalised to +0.0.
   */
  lemma ExtractScatterRoundTrip(d: seq<Float>)
    ensures InRange(Extract(d).indexes, |d|)
    ensures Scatter(|d|, Extract(d).indexes, Extract(d).values) == Canonicalize(d)
  {
    var e := Extract(d);
    ExtractWellFormed(d);
    ScatterAt(|d|, e.indexes, e.values);
    var s := Scatter(|d|, e.indexes, e.values);
    forall k | 0 <= k < |d|
      ensures s[k] == Canonicalize(d)[k]
    {
      ExtractComplete(d, k);
      if k in e.indexes {
        var t :| 0 <= t < |e.indexes| && e.indexes[t] == k;
        assert s[k] == e.values[t] == d[k];
      } else {
        assert s[k] == PositiveZero && IsZero(d[k]);
      }
    }
  }
}
