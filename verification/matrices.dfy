/** Dense real matrices as row sequences, and the few whole-matrix operations
    the numerical scripts rely on (row views of 2-D arrays, columns, transposes,
    products and an in-place row write). */
module Matrices {

  datatype Option<T> = None | Some(value: T)

  datatype Result<T, E> = Ok(value: T) | Err(error: E)

  /** `a` has `m` rows of `n` entries each. */
  predicate IsMatrix(a: seq<seq<real>>, m: nat, n: nat) {
    |a| == m && forall i :: 0 <= i < m ==> |a[i]| == n
  }

  /** The all-zero m×n matrix (`np.zeros((m, n))`). */
  function Zeros(m: nat, n: nat): (z: seq<seq<real>>)
    ensures IsMatrix(z, m, n)
    ensures forall i, j :: 0 <= i < m && 0 <= j < n ==> z[i][j] == 0.0
  {
    seq(m, _ => seq(n, _ => 0.0))
  }

  /** The rows of a 2-D array, as values. */
  function Rows(a: array2<real>): (r: seq<seq<real>>)
    reads a
    ensures IsMatrix(r, a.Length0, a.Length1)
    ensures forall i, j :: 0 <= i < a.Length0 && 0 <= j < a.Length1 ==> r[i][j] == a[i, j]
  {
    seq(a.Length0, i requires 0 <= i < a.Length0 reads a =>
      seq(a.Length1, j requires 0 <= j < a.Length1 reads a => a[i, j]))
  }

  /** Column `k` of a matrix, flattened (`np.ndarray.flatten(a[:, k:k+1])`). */
  function Column(a: seq<seq<real>>, k: nat): (col: seq<real>)
    requires forall i :: 0 <= i < |a| ==> k < |a[i]|
    ensures |col| == |a|
    ensures forall i :: 0 <= i < |a| ==> col[i] == a[i][k]
  {
    seq(|a|, i requires 0 <= i < |a| => a[i][k])
  }

  /** The transpose of an m×n matrix. */
  function Transpose(a: seq<seq<real>>, n: nat): (t: seq<seq<real>>)
    requires IsMatrix(a, |a|, n)
    ensures IsMatrix(t, n, |a|)
    ensures forall i, j :: 0 <= i < n && 0 <= j < |a| ==> t[i][j] == a[j][i]
  {
    seq(n, j requires 0 <= j < n => Column(a, j))
  }

  /** The sum of the pairwise products of two vectors of equal length. */
  function Dot(x: seq<real>, y: seq<real>): real
    requires |x| == |y|
    decreases |x|
  {
    if |x| == 0 then 0.0 else Dot(x[..|x| - 1], y[..|y| - 1]) + x[|x| - 1] * y[|y| - 1]
  }

  /** The product of x (m×k) and y (k×p), as `np.matmul` computes it in exact arithmetic. */
  function MatMul(x: seq<seq<real>>, y: seq<seq<real>>, p: nat): (z: seq<seq<real>>)
    requires IsMatrix(x, |x|, |y|) && IsMatrix(y, |y|, p)
    ensures IsMatrix(z, |x|, p)
    ensures forall i, j :: 0 <= i < |x| && 0 <= j < p ==> z[i][j] == Dot(x[i], Column(y, j))
  {
    seq(|x|, i requires 0 <= i < |x| => seq(p, j requires 0 <= j < p => Dot(x[i], Column(y, j))))
  }

  /** A rows×cols matrix with `d` on its leading diagonal (`np.diag`), zero elsewhere. */
  function Diagonal(rows: nat, cols: nat, d: seq<real>): (z: seq<seq<real>>)
    ensures IsMatrix(z, rows, cols)
    ensures forall i, j :: 0 <= i < rows && 0 <= j < cols ==> z[i][j] == if i == j && i < |d| then d[i] else 0.0
  {
    seq(rows, i requires 0 <= i < rows => seq(cols, j => if i == j && i < |d| then d[i] else 0.0))
  }

  /** A fresh m×n array of zeros (`np.zeros((m, n))`). */
  method NewZeros(m: nat, n: nat) returns (a: array2<real>)
    ensures fresh(a) && a.Length0 == m && a.Length1 == n
    ensures Rows(a) == Zeros(m, n)
  {
    a := new real[m, n]((_, _) => 0.0);
    ghost var z := Zeros(m, n);
    forall i | 0 <= i < m ensures Rows(a)[i] == z[i] {
    }
  }

  /** Overwrite row `r` of `a` with `v` (`a[r] = v` on a NumPy array). */
  method SetRow(a: array2<real>, r: nat, v: seq<real>)
    requires r < a.Length0 && |v| == a.Length1
    modifies a
    ensures Rows(a) == old(Rows(a))[r := v]
  {
    ghost var before := Rows(a);
    var j := 0;
    while j < a.Length1
      invariant 0 <= j <= a.Length1
      invariant forall i, k :: 0 <= i < a.Length0 && 0 <= k < a.Length1 ==>
        a[i, k] == (if i == r && k < j then v[k] else before[i][k])
    {
      a[r, j] := v[j];
      j := j + 1;
    }
    ghost var after := Rows(a);
    ghost var want := before[r := v];
    assert |after| == |want|;
    forall i | 0 <= i < |after| ensures after[i] == want[i] {
      assert |after[i]| == |want[i]|;
    }
  }
}
