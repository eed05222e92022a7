/** `Math::Matrix` (src/Tools/Math/Matrix.cpp), a dynamically sized
    matrix of doubles. Entries are reals; what is modelled is the shape
    and error behaviour of each operation and the entries it computes.
    Exceptions are `Err` values carrying the exception class and message. */
module DynamicMatrix {
  import opened Results

  datatype MatrixError =
    | InvalidArgument(message: string)
    | OutOfRange(message: string)

  /** `rows_`, `cols_` and the nested vector `data_`. */
  datatype Matrix = Matrix(rows: nat, cols: nat, data: seq<seq<real>>)

  /** `data_` is a rows × cols grid. */
  ghost predicate Shaped(m: Matrix) {
    |m.data| == m.rows && forall i :: 0 <= i < |m.data| ==> |m.data[i]| == m.cols
  }

  const NOT_POSITIVE := "Matrix dimensions must be positive"
  const NOT_RECTANGULAR := "Matrix dimensions must be rectangular"
  const INDEX_OUT_OF_RANGE := "Matrix index out of range"
  const ADD_MISMATCH := "Matrix dimensions must match for addition"
  const SUB_MISMATCH := "Matrix dimensions must match for subtraction"
  const MUL_MISMATCH := "Cols of M1 must match for rows of M2 for multiplication"

  function Zeros(rows: nat, cols: nat): (r: Matrix)
    ensures Shaped(r) && r.rows == rows && r.cols == cols
    ensures forall i, j :: 0 <= i < rows && 0 <= j < cols ==> r.data[i][j] == 0.0
  {
    Matrix(rows, cols, seq(rows, _ => seq(cols, _ => 0.0)))
  }

  /** `Matrix(rows, cols)`: a zero dimension is rejected. */
  function New(rows: nat, cols: nat): (r: Result<Matrix, MatrixError>)
    ensures r.Err? <==> rows == 0 || cols == 0
    ensures r.Err? ==> r.error == InvalidArgument(NOT_POSITIVE)
    ensures r.Ok? ==> Shaped(r.value) && r.value.rows == rows && r.value.cols == cols
  {
    if rows == 0 || cols == 0 then Err(InvalidArgument(NOT_POSITIVE)) else Ok(Zeros(rows, cols))
  }

  /** The nested-vector constructor as written: the dimensions come from
      the outer size and the first row, and the rectangularity loop walks
      the argument after it has been moved from, so it checks nothing. */
  function FromRows(data: seq<seq<real>>): (r: Matrix)
    ensures r.rows == |data| && r.data == data
    ensures |data| > 0 ==> r.cols == |data[0]|
    ensures |data| == 0 ==> r.cols == 0
  {
    Matrix(|data|, if |data| == 0 then 0 else |data[0]|, data)
  }

  /** The nested-vector constructor as intended: ragged input rejected. */
  function FromRowsChecked(data: seq<seq<real>>): (r: Result<Matrix, MatrixError>)
    ensures r.Ok? <==> forall i :: 0 <= i < |data| ==> |data[i]| == |data[0]|
    ensures r.Err? ==> r.error == InvalidArgument(NOT_RECTANGULAR)
    ensures r.Ok? ==> Shaped(r.value) && r.value == FromRows(data)
  {
    if forall i :: 0 <= i < |data| ==> |data[i]| == |data[0]| then Ok(FromRows(data))
    else Err(InvalidArgument(NOT_RECTANGULAR))
  }

  /** A ragged argument is accepted, and a read inside the recorded bounds
      then falls off the end of a short row. */
  lemma RaggedRowsAccepted()
    ensures var m := FromRows([[1.0, 2.0], [3.0]]);
      && m.rows == 2 && m.cols == 2 && !Shaped(m)
      && 1 < m.rows && 1 < m.cols && 1 >= |m.data[1]|
    ensures FromRowsChecked([[1.0, 2.0], [3.0]]) == Err(InvalidArgument(NOT_RECTANGULAR))
  {
    var m := FromRows([[1.0, 2.0], [3.0]]);
    assert |m.data[1]| == 1;
  }

  /** Any rectangular argument is accepted by both constructors alike. */
  lemma RectangularRowsAgree(data: seq<seq<real>>)
    requires |data| > 0 && forall i :: 0 <= i < |data| ==> |data[i]| == |data[0]|
    ensures FromRowsChecked(data) == Ok(FromRows(data)) && Shaped(FromRows(data))
  {
  }

  // ---- Copy and move ----

  /** Copy construction and copy assignment (self-assignment included)
      leave the target equal to the source. */
  function Copy(src: Matrix): (r: Matrix)
    ensures r.rows == src.rows && r.cols == src.cols && r.data == src.data
  {
    Matrix(src.rows, src.cols, src.data)
  }

  /** Move construction: the new matrix takes the source's dimensions and
      storage; the source is left 0 × 0 and empty. */
  function Move(src: Matrix): (r: (Matrix, Matrix))
    ensures r.0 == src
    ensures r.1.rows == 0 && r.1.cols == 0 && r.1.data == []
  {
    (src, Matrix(0, 0, []))
  }

  /** Move assignment; `aliased` is `this == &other`, in which case nothing
      changes. Returns the target and the source after the assignment. */
  function MoveAssign(target: Matrix, src: Matrix, aliased: bool): (r: (Matrix, Matrix))
    requires aliased ==> target == src
    ensures aliased ==> r == (target, src)
    ensures !aliased ==> r.0 == src && r.1.rows == 0 && r.1.cols == 0 && r.1.data == []
  {
    if aliased then (target, src) else Move(src)
  }

  /** A moved-from matrix is 0 × 0, so arithmetic on it fails at the
      result's allocation even though the dimension checks pass. */
  lemma MovedFromArithmeticFails(m: Matrix, s: real)
    ensures var src := Move(m).1;
      && Shaped(src)
      && Add(src, src) == Err(InvalidArgument(NOT_POSITIVE))
      && Sub(src, src) == Err(InvalidArgument(NOT_POSITIVE))
      && Scale(src, s) == Err(InvalidArgument(NOT_POSITIVE))
      && Product(src, src) == Err(InvalidArgument(NOT_POSITIVE))
  {
  }

  // ---- Element access ----

  /** `operator()(row, col)`, const or not: bounds-checked against the
      recorded dimensions. */
  function At(m: Matrix, row: nat, col: nat): (r: Result<real, MatrixError>)
    requires Shaped(m)
    ensures r.Err? <==> row >= m.rows || col >= m.cols
    ensures r.Err? ==> r.error == OutOfRange(INDEX_OUT_OF_RANGE)
    ensures r.Ok? ==> r.value == m.data[row][col]
  {
    if row >= m.rows || col >= m.cols then Err(OutOfRange(INDEX_OUT_OF_RANGE)) else Ok(m.data[row][col])
  }

  /** Assignment through the non-const `operator()`. */
  function SetAt(m: Matrix, row: nat, col: nat, v: real): (r: Result<Matrix, MatrixError>)
    requires Shaped(m)
    ensures r.Err? <==> row >= m.rows || col >= m.cols
    ensures r.Err? ==> r.error == OutOfRange(INDEX_OUT_OF_RANGE)
    ensures r.Ok? ==> Shaped(r.value) && r.value.rows == m.rows && r.value.cols == m.cols
    ensures r.Ok? ==> forall i, j :: 0 <= i < m.rows && 0 <= j < m.cols ==>
      r.value.data[i][j] == if i == row && j == col then v else m.data[i][j]
  {
    if row >= m.rows || col >= m.cols then Err(OutOfRange(INDEX_OUT_OF_RANGE))
    else Ok(m.(data := m.data[row := m.data[row][col := v]]))
  }

  lemma SetThenGet(m: Matrix, row: nat, col: nat, v: real)
    requires Shaped(m) && row < m.rows && col < m.cols
    ensures At(SetAt(m, row, col, v).value, row, col) == Ok(v)
  {
  }

  // ---- Arithmetic ----

  /** `+`: dimensions must match, and the result is allocated with
      `Matrix(rows, cols)`, so a 0 × 0 (moved-from) operand pair fails too. */
  function Add(a: Matrix, b: Matrix): (r: Result<Matrix, MatrixError>)
    requires Shaped(a) && Shaped(b)
    ensures a.rows != b.rows || a.cols != b.cols ==> r == Err(InvalidArgument(ADD_MISMATCH))
    ensures a.rows == b.rows && a.cols == b.cols ==> (r.Err? <==> a.rows == 0 || a.cols == 0)
    ensures r.Ok? ==> Shaped(r.value) && r.value.rows == a.rows && r.value.cols == a.cols
    ensures r.Ok? ==> forall i, j :: 0 <= i < a.rows && 0 <= j < a.cols ==>
      r.value.data[i][j] == a.data[i][j] + b.data[i][j]
  {
    if a.rows != b.rows || a.cols != b.cols then Err(InvalidArgument(ADD_MISMATCH))
    else
      var _ :- New(a.rows, a.cols);
      Ok(Matrix(a.rows, a.cols, seq(a.rows, i requires 0 <= i < a.rows =>
        seq(a.cols, j requires 0 <= j < a.cols => a.data[i][j] + b.data[i][j]))))
  }

  /** `-`, with the same checks as `+`. */
  function Sub(a: Matrix, b: Matrix): (r: Result<Matrix, MatrixError>)
    requires Shaped(a) && Shaped(b)
    ensures a.rows != b.rows || a.cols != b.cols ==> r == Err(InvalidArgument(SUB_MISMATCH))
    ensures a.rows == b.rows && a.cols == b.cols ==> (r.Err? <==> a.rows == 0 || a.cols == 0)
    ensures r.Ok? ==> Shaped(r.value) && r.value.rows == a.rows && r.value.cols == a.cols
    ensures r.Ok? ==> forall i, j :: 0 <= i < a.rows && 0 <= j < a.cols ==>
      r.value.data[i][j] == a.data[i][j] - b.data[i][j]
  {
    if a.rows != b.rows || a.cols != b.cols then Err(InvalidArgument(SUB_MISMATCH))
    else
      var _ :- New(a.rows, b.cols);
      Ok(Matrix(a.rows, b.cols, seq(a.rows, i requires 0 <= i < a.rows =>
        seq(b.cols, j requires 0 <= j < b.cols => a.data[i][j] - b.data[i][j]))))
  }

  /** Subtracting what was added gives the original back. */
  lemma AddThenSub(a: Matrix, b: Matrix)
    requires Shaped(a) && Shaped(b) && Add(a, b).Ok?
    ensures Sub(Add(a, b).value, b) == Ok(a)
  {
    var s := Add(a, b).value;
    var d := Sub(s, b).value;
    assert d.data == a.data by {
      forall i | 0 <= i < a.rows ensures d.data[i] == a.data[i] {
        assert |d.data[i]| == |a.data[i]|;
      }
    }
  }

  /** Matrix addition commutes. */
  lemma AddCommutes(a: Matrix, b: Matrix)
    requires Shaped(a) && Shaped(b)
    ensures Add(a, b).Ok? <==> Add(b, a).Ok?
    ensures Add(a, b).Ok? ==> Add(a, b) == Add(b, a)
  {
    if Add(a, b).Ok? {
      var x, y := Add(a, b).value, Add(b, a).value;
      assert x.data == y.data by {
        forall i | 0 <= i < a.rows ensures x.data[i] == y.data[i] {
          assert |x.data[i]| == |y.data[i]|;
        }
      }
    }
  }

  /** Entry (i, j) of A·B summed over the first `n` terms, in the loop's
      order: ((0 + A(i,0)·B(0,j)) + A(i,1)·B(1,j)) + … */
  function Dot(a: Matrix, b: Matrix, i: nat, j: nat, n: nat): real
    requires Shaped(a) && Shaped(b) && a.cols == b.rows
    requires i < a.rows && j < b.cols && n <= a.cols
  {
    if n == 0 then 0.0 else Dot(a, b, i, j, n - 1) + a.data[i][n - 1] * b.data[n - 1][j]
  }

  /** The matrix product as the source defines it, entry by entry. */
  function Product(a: Matrix, b: Matrix): (r: Result<Matrix, MatrixError>)
    requires Shaped(a) && Shaped(b)
    ensures a.cols != b.rows ==> r == Err(InvalidArgument(MUL_MISMATCH))
    ensures a.cols == b.rows ==> (r.Err? <==> a.rows == 0 || b.cols == 0)
    ensures a.cols == b.rows && r.Err? ==> r.error == InvalidArgument(NOT_POSITIVE)
    ensures r.Ok? ==> Shaped(r.value) && r.value.rows == a.rows && r.value.cols == b.cols
  {
    if a.cols != b.rows then Err(InvalidArgument(MUL_MISMATCH))
    else
      var _ :- New(a.rows, b.cols);
      Ok(Matrix(a.rows, b.cols, seq(a.rows, i requires 0 <= i < a.rows =>
        seq(b.cols, j requires 0 <= j < b.cols => Dot(a, b, i, j, a.cols)))))
  }

  /** `*` between matrices: the triple loop of the source. */
  method Multiply(a: Matrix, b: Matrix) returns (r: Result<Matrix, MatrixError>)
    requires Shaped(a) && Shaped(b)
    ensures r == Product(a, b)
  {
    if a.cols != b.rows {
      return Err(InvalidArgument(MUL_MISMATCH));
    }
    var alloc := New(a.rows, b.cols);
    if alloc.Err? {
      return Err(alloc.error);
    }
    var data: seq<seq<real>> := [];
    var i := 0;
    while i < a.rows
      invariant 0 <= i <= a.rows && |data| == i
      invariant forall ii :: 0 <= ii < i ==> data[ii] == seq(b.cols, j requires 0 <= j < b.cols => Dot(a, b, ii, j, a.cols))
    {
      var row: seq<real> := [];
      var j := 0;
      while j < b.cols
        invariant 0 <= j <= b.cols && |row| == j
        invariant forall jj :: 0 <= jj < j ==> row[jj] == Dot(a, b, i, jj, a.cols)
      {
        var sum := 0.0;
        var k := 0;
        while k < a.cols
          invariant 0 <= k <= a.cols
          invariant sum == Dot(a, b, i, j, k)
        {
          sum := sum + a.data[i][k] * b.data[k][j];
          k := k + 1;
        }
        row := row + [sum];
        j := j + 1;
      }
      data := data + [row];
      i := i + 1;
    }
    r := Ok(Matrix(a.rows, b.cols, data));
    assert data == Product(a, b).value.data by {
      forall x | 0 <= x < a.rows ensures data[x] == Product(a, b).value.data[x] {
        assert |data[x]| == |Product(a, b).value.data[x]|;
      }
    }
  }

  function Identity(n: nat): (r: Matrix)
    ensures Shaped(r) && r.rows == n && r.cols == n
  {
    Matrix(n, n, seq(n, i requires 0 <= i < n => seq(n, j requires 0 <= j < n => if i == j then 1.0 else 0.0)))
  }

  lemma {:induction false} DotRightIdentity(a: Matrix, i: nat, j: nat, n: nat)
    requires Shaped(a) && i < a.rows && j < a.cols && n <= a.cols
    ensures Dot(a, Identity(a.cols), i, j, n) == if j < n then a.data[i][j] else 0.0
  {
    if n > 0 {
      DotRightIdentity(a, i, j, n - 1);
    }
  }

  lemma {:induction false} DotLeftIdentity(a: Matrix, i: nat, j: nat, n: nat)
    requires Shaped(a) && i < a.rows && j < a.cols && n <= a.rows
    ensures Dot(Identity(a.rows), a, i, j, n) == if i < n then a.data[i][j] else 0.0
  {
    if n > 0 {
      DotLeftIdentity(a, i, j, n - 1);
    }
  }

  /** The identity is neutral on both sides of a non-empty matrix. */
  lemma ProductIdentity(a: Matrix)
    requires Shaped(a) && a.rows > 0 && a.cols > 0
    ensures Product(a, Identity(a.cols)) == Ok(a)
    ensures Product(Identity(a.rows), a) == Ok(a)
  {
    var p, q := Product(a, Identity(a.cols)).value, Product(Identity(a.rows), a).value;
    forall i, j | 0 <= i < a.rows && 0 <= j < a.cols
      ensures p.data[i][j] == a.data[i][j] && q.data[i][j] == a.data[i][j]
    {
      DotRightIdentity(a, i, j, a.cols);
      DotLeftIdentity(a, i, j, a.rows);
    }
    assert p.data == a.data by {
      forall i | 0 <= i < a.rows ensures p.data[i] == a.data[i] {
        assert |p.data[i]| == |a.data[i]|;
      }
    }
    assert q.data == a.data by {
      forall i | 0 <= i < a.rows ensures q.data[i] == a.data[i] {
        assert |q.data[i]| == |a.data[i]|;
      }
    }
  }

  /** `*` by a scalar: same shape, each entry scaled; allocation rejects a
      matrix with a zero dimension. */
  function Scale(m: Matrix, s: real): (r: Result<Matrix, MatrixError>)
    requires Shaped(m)
    ensures r.Err? <==> m.rows == 0 || m.cols == 0
    ensures r.Ok? ==> Shaped(r.value) && r.value.rows == m.rows && r.value.cols == m.cols
    ensures r.Ok? ==> forall i, j :: 0 <= i < m.rows && 0 <= j < m.cols ==> r.value.data[i][j] == m.data[i][j] * s
  {
    var _ :- New(m.rows, m.cols);
    Ok(Matrix(m.rows, m.cols, seq(m.rows, i requires 0 <= i < m.rows =>
      seq(m.cols, j requires 0 <= j < m.cols => m.data[i][j] * s))))
  }

  /** The non-member `scalar * matrix`, which forwards to `matrix * scalar`. */
  function ScaleLeft(s: real, m: Matrix): (r: Result<Matrix, MatrixError>)
    requires Shaped(m)
    ensures r.Err? <==> m.rows == 0 || m.cols == 0
    ensures r.Ok? ==> Shaped(r.value) && r.value.rows == m.rows && r.value.cols == m.cols
    ensures r.Ok? ==> forall i, j :: 0 <= i < m.rows && 0 <= j < m.cols ==> r.value.data[i][j] == s * m.data[i][j]
  {
    Scale(m, s)
  }

  /** Scaling by 1 is the identity and scaling twice multiplies the
      factors. */
  lemma ScaleLaws(m: Matrix, s: real, t: real)
    requires Shaped(m) && m.rows > 0 && m.cols > 0
    ensures Scale(m, 1.0) == Ok(m)
    ensures Scale(Scale(m, s).value, t) == Scale(m, s * t)
  {
    var one := Scale(m, 1.0).value;
    assert one.data == m.data by {
      forall i | 0 <= i < m.rows ensures one.data[i] == m.data[i] {
        assert |one.data[i]| == |m.data[i]|;
      }
    }
    var st, direct := Scale(Scale(m, s).value, t).value, Scale(m, s * t).value;
    assert st.data == direct.data by {
      forall i | 0 <= i < m.rows ensures st.data[i] == direct.data[i] {
        assert |st.data[i]| == |direct.data[i]|;
        forall j | 0 <= j < m.cols ensures st.data[i][j] == direct.data[i][j] {
          assert st.data[i][j] == (m.data[i][j] * s) * t;
        }
      }
    }
  }

  // ---- Transpose ----

  /** The transpose, cols × rows. */
  function Transposed(m: Matrix): (r: Matrix)
    requires Shaped(m)
    ensures Shaped(r) && r.rows == m.cols && r.cols == m.rows
    ensures forall i, j :: 0 <= i < m.cols && 0 <= j < m.rows ==> r.data[i][j] == m.data[j][i]
  {
    Matrix(m.cols, m.rows, seq(m.cols, i requires 0 <= i < m.cols =>
      seq(m.rows, j requires 0 <= j < m.rows => m.data[j][i])))
  }

  lemma TransposedTwice(m: Matrix)
    requires Shaped(m)
    ensures Transposed(Transposed(m)) == m
  {
    var t := Transposed(Transposed(m));
    assert t.data == m.data by {
      forall i | 0 <= i < m.rows ensures t.data[i] == m.data[i] {
        assert |t.data[i]| == |m.data[i]|;
      }
    }
  }

  ghost predicate GridShaped(grid: seq<seq<real>>, m: Matrix) {
    |grid| == m.rows && forall x :: 0 <= x < m.rows ==> |grid[x]| == m.cols
  }

  /** Entry (i, j) of `m` has been written to (j, i) of a rows × cols grid. */
  ghost predicate Wrote(grid: seq<seq<real>>, m: Matrix, i: nat, j: nat)
    requires Shaped(m) && GridShaped(grid, m) && i < m.rows && j < m.cols
  {
    j < m.rows && i < m.cols && grid[j][i] == m.data[i][j]
  }

  /** Every entry before (i, j) in row-major order has been written. */
  ghost predicate WrittenUpTo(grid: seq<seq<real>>, m: Matrix, i: nat, j: nat)
    requires Shaped(m) && GridShaped(grid, m)
  {
    forall ii, jj :: 0 <= ii < m.rows && 0 <= jj < m.cols && (ii < i || (ii == i && jj < j)) ==> Wrote(grid, m, ii, jj)
  }

  /** `transpose` as written: it allocates a rows × cols result and writes
      entry (j, i) through the checked accessor, so the first write past
      the result's bounds throws. It succeeds iff the matrix is square
      (and non-empty, for the allocation). */
  method Transpose(m: Matrix) returns (r: Result<Matrix, MatrixError>)
    requires Shaped(m)
    ensures r.Ok? <==> m.rows == m.cols && m.rows > 0
    ensures r.Err? && (m.rows == 0 || m.cols == 0) ==> r.error == InvalidArgument(NOT_POSITIVE)
    ensures r.Err? && m.rows > 0 && m.cols > 0 ==> r.error == OutOfRange(INDEX_OUT_OF_RANGE)
    ensures r.Ok? ==> r.value == Transposed(m)
  {
    var alloc := New(m.rows, m.cols);
    if alloc.Err? {
      return Err(alloc.error);
    }
    var grid := alloc.value.data;
    var i := 0;
    while i < m.rows
      invariant 0 <= i <= m.rows
      invariant GridShaped(grid, m) && WrittenUpTo(grid, m, i, 0)
    {
      var j := 0;
      while j < m.cols
        invariant 0 <= j <= m.cols
        invariant GridShaped(grid, m) && WrittenUpTo(grid, m, i, j)
      {
        if j >= m.rows || i >= m.cols {
          return Err(OutOfRange(INDEX_OUT_OF_RANGE));
        }
        ghost var before := grid;
        grid := grid[j := grid[j][i := m.data[i][j]]];
        forall ii, jj | 0 <= ii < m.rows && 0 <= jj < m.cols && (ii < i || (ii == i && jj <= j))
          ensures Wrote(grid, m, ii, jj)
        {
          if ii != i || jj != j {
            assert Wrote(before, m, ii, jj);
          }
        }
        j := j + 1;
      }
      i := i + 1;
    }
    assert Wrote(grid, m, 0, m.cols - 1) && Wrote(grid, m, m.rows - 1, 0);
    r := Ok(Matrix(m.rows, m.cols, grid));
    assert grid == Transposed(m).data by {
      forall x | 0 <= x < m.rows ensures grid[x] == Transposed(m).data[x] {
        assert |grid[x]| == |Transposed(m).data[x]|;
        forall y | 0 <= y < m.cols ensures grid[x][y] == Transposed(m).data[x][y] {
          assert Wrote(grid, m, y, x);
        }
      }
    }
  }

  /** `transpose` as intended: a cols × rows result. */
  function TransposeIntended(m: Matrix): (r: Result<Matrix, MatrixError>)
    requires Shaped(m)
    ensures r.Err? <==> m.rows == 0 || m.cols == 0
    ensures r.Ok? ==> r.value == Transposed(m)
  {
    var _ :- New(m.cols, m.rows);
    Ok(Transposed(m))
  }

  /** As intended, transposing twice gives the matrix back, for every
      shape; as written only square matrices get that far. */
  lemma TransposeIntendedInvolution(m: Matrix)
    requires Shaped(m) && m.rows > 0 && m.cols > 0
    ensures TransposeIntended(m).Ok?
    ensures TransposeIntended(TransposeIntended(m).value) == Ok(m)
  {
    TransposedTwice(m);
  }

  /** A 1 × 2 row: the source's loop writes entry (1, 0) into a 1 × 2
      result and throws out_of_range; the intended transpose is 2 × 1. */
  lemma NonSquareTranspose()
    ensures var m := Matrix(1, 2, [[1.0, 2.0]]);
      && Shaped(m) && m.rows != m.cols
      && TransposeIntended(m) == Ok(Matrix(2, 1, [[1.0], [2.0]]))
  {
    var m := Matrix(1, 2, [[1.0, 2.0]]);
    var t := Transposed(m);
    assert t.data[0] == [1.0] by { assert |t.data[0]| == 1 && t.data[0][0] == m.data[0][0]; }
    assert t.data[1] == [2.0] by { assert |t.data[1]| == 1 && t.data[1][0] == m.data[0][1]; }
    assert t.data == [[1.0], [2.0]];
  }
}
