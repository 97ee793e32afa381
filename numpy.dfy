/**
 * The handful of NumPy array operations that the Fock matrix element
 * bookkeeping relies on: two-dimensional arrays with a shape, fancy
 * indexing by an index list, `np.block` of four blocks, zero and identity
 * matrices, and `np.fill_diagonal`, which overwrites a square array in place.
 *
 * Entries are of an abstract type `T`; nothing here does arithmetic on them.
 */
module NumPy {

  /** A dense two-dimensional array: `shape == (rows, cols)`, entries row by row. */
  datatype Matrix<T> = Matrix(rows: nat, cols: nat, entries: seq<seq<T>>)
  {
    /** Every NumPy array is rectangular: `rows` rows of `cols` entries each. */
    predicate Valid() {
      |entries| == rows && forall i | 0 <= i < rows :: |entries[i]| == cols
    }

    /** The value of NumPy's `.shape` attribute. */
    function Shape(): (nat, nat) {
      (rows, cols)
    }
  }

  ghost predicate Symmetric<T>(M: Matrix<T>)
    requires M.Valid()
  {
    M.rows == M.cols &&
    forall i, j | 0 <= i < M.rows && 0 <= j < M.rows :: M.entries[i][j] == M.entries[j][i]
  }

  /** Fancy indexing of a one-dimensional array, `v[idx]`: one entry per index, in order. */
  function Take<T>(v: seq<T>, idx: seq<nat>): (r: seq<T>)
    requires forall a | 0 <= a < |idx| :: idx[a] < |v|
    ensures |r| == |idx|
    ensures forall a | 0 <= a < |idx| :: r[a] == v[idx[a]]
  {
    if idx == [] then [] else [v[idx[0]]] + Take(v, idx[1..])
  }

  /** `M[idx, :]`: the rows of `M` picked by `idx`, repeats allowed. */
  function Rows<T>(M: Matrix<T>, idx: seq<nat>): (r: Matrix<T>)
    requires M.Valid() && forall a | 0 <= a < |idx| :: idx[a] < M.rows
    ensures r.Valid() && r.Shape() == (|idx|, M.cols)
    ensures forall a, j | 0 <= a < |idx| && 0 <= j < M.cols :: r.entries[a][j] == M.entries[idx[a]][j]
  {
    Matrix(|idx|, M.cols, Take(M.entries, idx))
  }

  /** `M[:, idx]`: the columns of `M` picked by `idx`, repeats allowed. */
  function Columns<T>(M: Matrix<T>, idx: seq<nat>): (r: Matrix<T>)
    requires M.Valid() && forall b | 0 <= b < |idx| :: idx[b] < M.cols
    ensures r.Valid() && r.Shape() == (M.rows, |idx|)
    ensures forall i, b | 0 <= i < M.rows && 0 <= b < |idx| :: r.entries[i][b] == M.entries[i][idx[b]]
  {
    Matrix(M.rows, |idx|, seq(M.rows, i requires 0 <= i < M.rows => Take(M.entries[i], idx)))
  }

  /**
   * `np.block([[A, B], [C, D]])`: A top-left, B top-right, C bottom-left and
   * D bottom-right; blocks in a block row share their row count and blocks
   * in a block column share their column count.
   */
  function Block<T>(A: Matrix<T>, B: Matrix<T>, C: Matrix<T>, D: Matrix<T>): (r: Matrix<T>)
    requires A.Valid() && B.Valid() && C.Valid() && D.Valid()
    requires A.rows == B.rows && C.rows == D.rows && A.cols == C.cols && B.cols == D.cols
    ensures r.Valid() && r.Shape() == (A.rows + C.rows, A.cols + B.cols)
    ensures forall i, j | 0 <= i < A.rows && 0 <= j < A.cols :: r.entries[i][j] == A.entries[i][j]
    ensures forall i, j | 0 <= i < A.rows && A.cols <= j < r.cols :: r.entries[i][j] == B.entries[i][j - A.cols]
    ensures forall i, j | A.rows <= i < r.rows && 0 <= j < A.cols :: r.entries[i][j] == C.entries[i - A.rows][j]
    ensures forall i, j | A.rows <= i < r.rows && A.cols <= j < r.cols :: r.entries[i][j] == D.entries[i - A.rows][j - A.cols]
  {
    var top := seq(A.rows, i requires 0 <= i < A.rows => A.entries[i] + B.entries[i]);
    var bottom := seq(C.rows, i requires 0 <= i < C.rows => C.entries[i] + D.entries[i]);
    Matrix(A.rows + C.rows, A.cols + B.cols, top + bottom)
  }

  /** The block of `M` with `h` rows and `w` columns whose top-left corner is `(i0, j0)`. */
  function SubMatrix<T>(M: Matrix<T>, i0: nat, j0: nat, h: nat, w: nat): (r: Matrix<T>)
    requires M.Valid() && i0 + h <= M.rows && j0 + w <= M.cols
    ensures r.Valid() && r.Shape() == (h, w)
  {
    Matrix(h, w, seq(h, i requires 0 <= i < h => M.entries[i0 + i][j0 .. j0 + w]))
  }

  /** The l×l matrix with every entry `zero` (NumPy's `0 * np.identity(l)`). */
  function Zeros<T>(l: nat, zero: T): (r: Matrix<T>)
    ensures r.Valid() && r.Shape() == (l, l)
  {
    Matrix(l, l, seq(l, i => seq(l, j => zero)))
  }

  /** `np.identity(l)`: `one` on the diagonal and `zero` elsewhere. */
  function Identity<T>(l: nat, zero: T, one: T): (r: Matrix<T>)
    ensures r.Valid() && r.Shape() == (l, l)
  {
    Matrix(l, l, seq(l, i => seq(l, j => if i == j then one else zero)))
  }

  /** The value a square matrix has after its diagonal is replaced by `d`. */
  function WithDiagonal<T>(M: Matrix<T>, d: seq<T>): (r: Matrix<T>)
    requires M.Valid() && M.rows == M.cols == |d|
    ensures r.Valid() && r.Shape() == M.Shape()
  {
    Matrix(M.rows, M.cols,
      seq(M.rows, i requires 0 <= i < M.rows =>
        seq(M.cols, j requires 0 <= j < M.cols => if i == j then d[i] else M.entries[i][j])))
  }

  /** Two rectangular matrices of one shape that agree entry by entry are equal. */
  lemma SameEntries<T>(M: Matrix<T>, N: Matrix<T>)
    requires M.Valid() && N.Valid() && M.Shape() == N.Shape()
    requires forall i, j | 0 <= i < M.rows && 0 <= j < M.cols :: M.entries[i][j] == N.entries[i][j]
    ensures M == N
  {
    forall i | 0 <= i < M.rows
      ensures M.entries[i] == N.entries[i]
    {
    }
  }

  /** The current contents of a two-dimensional array, as a matrix value. */
  function Contents<T>(a: array2<T>): (r: Matrix<T>)
    reads a
    ensures r.Valid() && r.Shape() == (a.Length0, a.Length1)
    ensures forall i, j | 0 <= i < a.Length0 && 0 <= j < a.Length1 :: r.entries[i][j] == a[i, j]
  {
    Matrix(a.Length0, a.Length1,
      seq(a.Length0, i requires 0 <= i < a.Length0 reads a =>
        seq(a.Length1, j requires 0 <= j < a.Length1 reads a => a[i, j])))
  }

  /**
   * `np.fill_diagonal(a, d)` on a square array with one value per diagonal
   * entry: the diagonal is overwritten in place and nothing else changes.
   */
  method FillDiagonal<T>(a: array2<T>, d: seq<T>)
    requires a.Length0 == a.Length1 == |d|
    modifies a
    ensures forall i, j | 0 <= i < a.Length0 && 0 <= j < a.Length1 ::
      a[i, j] == if i == j then d[i] else old(a[i, j])
    ensures Contents(a) == WithDiagonal(old(Contents(a)), d)
  {
    ghost var before := Contents(a);
    for k := 0 to |d|
      invariant forall i, j | 0 <= i < a.Length0 && 0 <= j < a.Length1 ::
        a[i, j] == if i == j && i < k then d[i] else old(a[i, j])
    {
      a[k, k] := d[k];
    }
    SameEntries(Contents(a), WithDiagonal(before, d));
  }
}
