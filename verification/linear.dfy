/** `cflat_mat_transpose_c32` of CflatLinear.h.

    A matrix is a sequence of rows; the `c32` elements are a type parameter,
    since the function only copies them.  `in` is read-only and `out` is
    written cell by cell, so the method takes the old contents of `out` and
    returns its new contents together with the cells it wrote, in order. */
module Linear {
  /** A `rows` by `cols` matrix. */
  predicate Shaped<T>(m: seq<seq<T>>, rows: nat, cols: nat) {
    |m| == rows && forall i :: 0 <= i < rows ==> |m[i]| == cols
  }

  /** The transpose of a `rows` by `cols` matrix: cell `(j, i)` holds cell
      `(i, j)` of `m`. */
  function Transposed<T>(m: seq<seq<T>>, rows: nat, cols: nat): (t: seq<seq<T>>)
    requires Shaped(m, rows, cols)
    ensures Shaped(t, cols, rows)
  {
    seq(cols, j requires 0 <= j < cols => seq(rows, i requires 0 <= i < rows => m[i][j]))
  }

  /** Transposing twice gives back the matrix. */
  lemma TransposeInvolution<T>(m: seq<seq<T>>, rows: nat, cols: nat)
    requires Shaped(m, rows, cols)
    ensures Transposed(Transposed(m, rows, cols), cols, rows) == m
  {
    var t := Transposed(Transposed(m, rows, cols), cols, rows);
    forall i | 0 <= i < rows
      ensures t[i] == m[i]
    {
      assert forall j :: 0 <= j < cols ==> t[i][j] == m[i][j];
    }
  }

  /** A cell of `out`: `Cell(j, i)` is `(*out)[j][i]`. */
  datatype Cell = Cell(row: nat, col: nat)

  /** `cflat_mat_transpose_c32(rows, cols, out, in)`: for `i` below `rows`
      and `j` below `cols`, in that order, `(*out)[j][i] = (*in)[i][j]`.
      The result is the matrix `out` points to afterwards. */
  method Transpose<T>(rows: nat, cols: nat, out: seq<seq<T>>, input: seq<seq<T>>) returns (r: seq<seq<T>>, writes: seq<Cell>)
    requires Shaped(input, rows, cols) && Shaped(out, cols, rows)
    ensures Shaped(r, cols, rows)
    ensures forall i, j :: 0 <= i < rows && 0 <= j < cols ==> r[j][i] == input[i][j]
    ensures forall c :: c in writes <==> c.row < cols && c.col < rows
    ensures forall p, q :: 0 <= p < q < |writes| ==> writes[p] != writes[q]
  {
    r := out;
    writes := [];
    var i := 0;
    while i < rows
      invariant i <= rows
      invariant Shaped(r, cols, rows)
      invariant forall ii, jj :: 0 <= ii < i && 0 <= jj < cols ==> r[jj][ii] == input[ii][jj]
      invariant forall c :: c in writes <==> c.row < cols && c.col < i
      invariant forall p, q :: 0 <= p < q < |writes| ==> writes[p] != writes[q]
    {
      var j := 0;
      while j < cols
        invariant j <= cols
        invariant Shaped(r, cols, rows)
        invariant forall ii, jj :: 0 <= ii < i && 0 <= jj < cols ==> r[jj][ii] == input[ii][jj]
        invariant forall jj :: 0 <= jj < j ==> r[jj][i] == input[i][jj]
        invariant forall c :: c in writes <==> (c.row < cols && c.col < i) || (c.row < j && c.col == i)
        invariant forall p, q :: 0 <= p < q < |writes| ==> writes[p] != writes[q]
      {
        r := r[j := r[j][i := input[i][j]]];
        writes := writes + [Cell(j, i)];
        j := j + 1;
      }
      i := i + 1;
    }
  }

  /** The transpose the method leaves in `out` is the reference one, whatever
      `out` held before. */
  lemma TransposeIsTransposed<T>(rows: nat, cols: nat, out: seq<seq<T>>, input: seq<seq<T>>, r: seq<seq<T>>)
    requires Shaped(input, rows, cols) && Shaped(r, cols, rows)
    requires forall i, j :: 0 <= i < rows && 0 <= j < cols ==> r[j][i] == input[i][j]
    ensures r == Transposed(input, rows, cols)
  {
    var t := Transposed(input, rows, cols);
    forall j | 0 <= j < cols
      ensures r[j] == t[j]
    {
      assert forall i :: 0 <= i < rows ==> r[j][i] == t[j][i];
    }
  }
}
