/** `tc::matrix_ops`: elementwise and algebraic matrix kernels. Each is a nested loop over
    1-based `(i, j)` that overwrites the output view's elements in place. The debug-build
    assertions on the shapes are the preconditions. An elementwise kernel may run in place
    (its output the very view of an input) or on separate buffers; `m_trn` and `mm_mul` need an
    output buffer that no input reads. */
module MatrixOps {
  import opened Checked
  import opened Algebra
  import opened MatrixViews

  /** Two views of the same shape. */
  predicate SameShape(a: MatrixView, b: MatrixView)
  {
    a.rows == b.rows && a.columns == b.columns
  }

  /** `m_cpy(in, out)`: every element of `out` becomes the matching element of `in`. */
  method MCpy(source: MatrixView, out: MatrixView)
    requires source.Valid() && out.Valid() && SameShape(source, out)
    requires SameOrApart(out, source)
    modifies out.data
    ensures forall i, j :: 1 <= i <= out.rows && 1 <= j <= out.columns ==>
              out.Get(i, j) == old(source.Get(i, j))
    ensures OnlyWindowChanged(out)
  {
    var i := 1;
    while i <= source.rows
      invariant 1 <= i <= source.rows + 1
      invariant forall r, c :: i <= r <= out.rows && 1 <= c <= out.columns ==> source.Get(r, c) == old(source.Get(r, c))
      invariant forall r, c :: 1 <= r < i && 1 <= c <= out.columns ==> out.Get(r, c) == old(source.Get(r, c))
      invariant OnlyWindowChanged(out)
    {
      var j := 1;
      while j <= source.columns
        invariant 1 <= j <= source.columns + 1
        invariant forall r, c :: i < r <= out.rows && 1 <= c <= out.columns ==> source.Get(r, c) == old(source.Get(r, c))
        invariant forall c :: j <= c <= out.columns ==> source.Get(i, c) == old(source.Get(i, c))
        invariant forall r, c :: 1 <= r < i && 1 <= c <= out.columns ==> out.Get(r, c) == old(source.Get(r, c))
        invariant forall c :: 1 <= c < j ==> out.Get(i, c) == old(source.Get(i, c))
        invariant OnlyWindowChanged(out)
      {
        out.Put(i, j, source.Get(i, j));
        j := j + 1;
      }
      i := i + 1;
    }
  }

  /** `m_fill(matrix, val)`: every element becomes `val`. The result depends on the shape and
      `val` alone, so filling twice with `val` leaves what filling once does. */
  method MFill(matrix: MatrixView, val: int)
    requires matrix.Valid()
    modifies matrix.data
    ensures forall i, j :: 1 <= i <= matrix.rows && 1 <= j <= matrix.columns ==>
              matrix.Get(i, j) == val
    ensures matrix.Elements() == Fill(matrix.Size(), val)
    ensures OnlyWindowChanged(matrix)
  {
    var i := 1;
    while i <= matrix.rows
      invariant 1 <= i <= matrix.rows + 1
      invariant forall r, c :: 1 <= r < i && 1 <= c <= matrix.columns ==> matrix.Get(r, c) == val
      invariant OnlyWindowChanged(matrix)
    {
      var j := 1;
      while j <= matrix.columns
        invariant 1 <= j <= matrix.columns + 1
        invariant forall r, c :: 1 <= r < i && 1 <= c <= matrix.columns ==> matrix.Get(r, c) == val
        invariant forall c :: 1 <= c < j ==> matrix.Get(i, c) == val
        invariant OnlyWindowChanged(matrix)
      {
        matrix.Put(i, j, val);
        j := j + 1;
      }
      i := i + 1;
    }
    forall k | 0 <= k < matrix.Size()
      ensures matrix.Elements()[k] == val
    {
      OffsetSurjective(matrix, k);
    }
  }

  /** `m_fn(in, result, function)`: every element of `result` is `f` of the matching element of `in`;
      read in memory order, `result` is the flat map of `f` over `in` (the sequential meaning of
      the parallel `matrix_ops_f::m_fn`). */
  method MFn(source: MatrixView, result: MatrixView, f: int -> int)
    requires source.Valid() && result.Valid() && SameShape(source, result)
    requires SameOrApart(result, source)
    modifies result.data
    ensures forall i, j :: 1 <= i <= result.rows && 1 <= j <= result.columns ==>
              result.Get(i, j) == f(old(source.Get(i, j)))
    ensures result.Elements() == Map(f, old(source.Elements()))
    ensures OnlyWindowChanged(result)
  {
    ghost var before := source.Elements();
    var i := 1;
    while i <= source.rows
      invariant 1 <= i <= source.rows + 1
      invariant forall r, c :: i <= r <= result.rows && 1 <= c <= result.columns ==> source.Get(r, c) == old(source.Get(r, c))
      invariant forall r, c :: 1 <= r < i && 1 <= c <= result.columns ==> result.Get(r, c) == f(old(source.Get(r, c)))
      invariant OnlyWindowChanged(result)
    {
      var j := 1;
      while j <= source.columns
        invariant 1 <= j <= source.columns + 1
        invariant forall r, c :: i < r <= result.rows && 1 <= c <= result.columns ==> source.Get(r, c) == old(source.Get(r, c))
        invariant forall c :: j <= c <= result.columns ==> source.Get(i, c) == old(source.Get(i, c))
        invariant forall r, c :: 1 <= r < i && 1 <= c <= result.columns ==> result.Get(r, c) == f(old(source.Get(r, c)))
        invariant forall c :: 1 <= c < j ==> result.Get(i, c) == f(old(source.Get(i, c)))
        invariant OnlyWindowChanged(result)
      {
        result.Put(i, j, f(source.Get(i, j)));
        j := j + 1;
      }
      i := i + 1;
    }
    EntrywiseMapIsFlatMap(result, before, f);
  }

  /** `mm_add(lhs, rhs, result)`: elementwise sum. */
  method MmAdd(lhs: MatrixView, rhs: MatrixView, result: MatrixView)
    requires lhs.Valid() && rhs.Valid() && result.Valid()
    requires SameShape(lhs, rhs) && SameShape(lhs, result)
    requires SameOrApart(result, lhs) && SameOrApart(result, rhs)
    modifies result.data
    ensures forall i, j :: 1 <= i <= result.rows && 1 <= j <= result.columns ==>
              result.Get(i, j) == old(lhs.Get(i, j)) + old(rhs.Get(i, j))
    ensures OnlyWindowChanged(result)
  {
    var i := 1;
    while i <= lhs.rows
      invariant 1 <= i <= lhs.rows + 1
      invariant forall r, c :: i <= r <= result.rows && 1 <= c <= result.columns ==> lhs.Get(r, c) == old(lhs.Get(r, c)) && rhs.Get(r, c) == old(rhs.Get(r, c))
      invariant forall r, c :: 1 <= r < i && 1 <= c <= result.columns ==> result.Get(r, c) == old(lhs.Get(r, c)) + old(rhs.Get(r, c))
      invariant OnlyWindowChanged(result)
    {
      var j := 1;
      while j <= lhs.columns
        invariant 1 <= j <= lhs.columns + 1
        invariant forall r, c :: i < r <= result.rows && 1 <= c <= result.columns ==> lhs.Get(r, c) == old(lhs.Get(r, c)) && rhs.Get(r, c) == old(rhs.Get(r, c))
        invariant forall c :: j <= c <= result.columns ==> lhs.Get(i, c) == old(lhs.Get(i, c)) && rhs.Get(i, c) == old(rhs.Get(i, c))
        invariant forall r, c :: 1 <= r < i && 1 <= c <= result.columns ==> result.Get(r, c) == old(lhs.Get(r, c)) + old(rhs.Get(r, c))
        invariant forall c :: 1 <= c < j ==> result.Get(i, c) == old(lhs.Get(i, c)) + old(rhs.Get(i, c))
        invariant OnlyWindowChanged(result)
      {
        result.Put(i, j, lhs.Get(i, j) + rhs.Get(i, j));
        j := j + 1;
      }
      i := i + 1;
    }
  }

  /** `mm_hprod(lhs, rhs, result)`: Hadamard (elementwise) product. */
  method MmHprod(lhs: MatrixView, rhs: MatrixView, result: MatrixView)
    requires lhs.Valid() && rhs.Valid() && result.Valid()
    requires SameShape(lhs, rhs) && SameShape(lhs, result)
    requires SameOrApart(result, lhs) && SameOrApart(result, rhs)
    modifies result.data
    ensures forall i, j :: 1 <= i <= result.rows && 1 <= j <= result.columns ==>
              result.Get(i, j) == old(lhs.Get(i, j)) * old(rhs.Get(i, j))
    ensures OnlyWindowChanged(result)
  {
    var i := 1;
    while i <= lhs.rows
      invariant 1 <= i <= lhs.rows + 1
      invariant forall r, c :: i <= r <= result.rows && 1 <= c <= result.columns ==> lhs.Get(r, c) == old(lhs.Get(r, c)) && rhs.Get(r, c) == old(rhs.Get(r, c))
      invariant forall r, c :: 1 <= r < i && 1 <= c <= result.columns ==> result.Get(r, c) == old(lhs.Get(r, c)) * old(rhs.Get(r, c))
      invariant OnlyWindowChanged(result)
    {
      var j := 1;
      while j <= lhs.columns
        invariant 1 <= j <= lhs.columns + 1
        invariant forall r, c :: i < r <= result.rows && 1 <= c <= result.columns ==> lhs.Get(r, c) == old(lhs.Get(r, c)) && rhs.Get(r, c) == old(rhs.Get(r, c))
        invariant forall c :: j <= c <= result.columns ==> lhs.Get(i, c) == old(lhs.Get(i, c)) && rhs.Get(i, c) == old(rhs.Get(i, c))
        invariant forall r, c :: 1 <= r < i && 1 <= c <= result.columns ==> result.Get(r, c) == old(lhs.Get(r, c)) * old(rhs.Get(r, c))
        invariant forall c :: 1 <= c < j ==> result.Get(i, c) == old(lhs.Get(i, c)) * old(rhs.Get(i, c))
        invariant OnlyWindowChanged(result)
      {
        result.Put(i, j, lhs.Get(i, j) * rhs.Get(i, j));
        j := j + 1;
      }
      i := i + 1;
    }
  }

  /** `mm_sub(lhs, rhs, result)`: elementwise difference. */
  method MmSub(lhs: MatrixView, rhs: MatrixView, result: MatrixView)
    requires lhs.Valid() && rhs.Valid() && result.Valid()
    requires SameShape(lhs, rhs) && SameShape(lhs, result)
    requires SameOrApart(result, lhs) && SameOrApart(result, rhs)
    modifies result.data
    ensures forall i, j :: 1 <= i <= result.rows && 1 <= j <= result.columns ==>
              result.Get(i, j) == old(lhs.Get(i, j)) - old(rhs.Get(i, j))
    ensures OnlyWindowChanged(result)
  {
    var i := 1;
    while i <= lhs.rows
      invariant 1 <= i <= lhs.rows + 1
      invariant forall r, c :: i <= r <= result.rows && 1 <= c <= result.columns ==> lhs.Get(r, c) == old(lhs.Get(r, c)) && rhs.Get(r, c) == old(rhs.Get(r, c))
      invariant forall r, c :: 1 <= r < i && 1 <= c <= result.columns ==> result.Get(r, c) == old(lhs.Get(r, c)) - old(rhs.Get(r, c))
      invariant OnlyWindowChanged(result)
    {
      var j := 1;
      while j <= lhs.columns
        invariant 1 <= j <= lhs.columns + 1
        invariant forall r, c :: i < r <= result.rows && 1 <= c <= result.columns ==> lhs.Get(r, c) == old(lhs.Get(r, c)) && rhs.Get(r, c) == old(rhs.Get(r, c))
        invariant forall c :: j <= c <= result.columns ==> lhs.Get(i, c) == old(lhs.Get(i, c)) && rhs.Get(i, c) == old(rhs.Get(i, c))
        invariant forall r, c :: 1 <= r < i && 1 <= c <= result.columns ==> result.Get(r, c) == old(lhs.Get(r, c)) - old(rhs.Get(r, c))
        invariant forall c :: 1 <= c < j ==> result.Get(i, c) == old(lhs.Get(i, c)) - old(rhs.Get(i, c))
        invariant OnlyWindowChanged(result)
      {
        result.Put(i, j, lhs.Get(i, j) - rhs.Get(i, j));
        j := j + 1;
      }
      i := i + 1;
    }
  }

  /** `ms_mul(lhs, rhs, result)`: every element of the matrix `lhs` times the scalar `rhs`. */
  method MsMul(lhs: MatrixView, rhs: int, result: MatrixView)
    requires lhs.Valid() && result.Valid() && SameShape(lhs, result)
    requires SameOrApart(result, lhs)
    modifies result.data
    ensures forall i, j :: 1 <= i <= result.rows && 1 <= j <= result.columns ==>
              result.Get(i, j) == old(lhs.Get(i, j)) * rhs
    ensures OnlyWindowChanged(result)
  {
    var i := 1;
    while i <= lhs.rows
      invariant 1 <= i <= lhs.rows + 1
      invariant forall r, c :: i <= r <= result.rows && 1 <= c <= result.columns ==> lhs.Get(r, c) == old(lhs.Get(r, c))
      invariant forall r, c :: 1 <= r < i && 1 <= c <= result.columns ==> result.Get(r, c) == old(lhs.Get(r, c)) * rhs
      invariant OnlyWindowChanged(result)
    {
      var j := 1;
      while j <= lhs.columns
        invariant 1 <= j <= lhs.columns + 1
        invariant forall r, c :: i < r <= result.rows && 1 <= c <= result.columns ==> lhs.Get(r, c) == old(lhs.Get(r, c))
        invariant forall c :: j <= c <= result.columns ==> lhs.Get(i, c) == old(lhs.Get(i, c))
        invariant forall r, c :: 1 <= r < i && 1 <= c <= result.columns ==> result.Get(r, c) == old(lhs.Get(r, c)) * rhs
        invariant forall c :: 1 <= c < j ==> result.Get(i, c) == old(lhs.Get(i, c)) * rhs
        invariant OnlyWindowChanged(result)
      {
        result.Put(i, j, lhs.Get(i, j) * rhs);
        j := j + 1;
      }
      i := i + 1;
    }
  }

  /** `sm_mul(lhs, rhs, result)`: the scalar `lhs` times every element of the matrix `rhs`.
      The loops run over `rhs`'s rows and columns; the source names `lhs.rows()` and
      `lhs.columns()` on the scalar, which the shape assertions show is meant as `rhs`. */
  method SmMul(lhs: int, rhs: MatrixView, result: MatrixView)
    requires rhs.Valid() && result.Valid() && SameShape(rhs, result)
    requires SameOrApart(result, rhs)
    modifies result.data
    ensures forall i, j :: 1 <= i <= result.rows && 1 <= j <= result.columns ==>
              result.Get(i, j) == lhs * old(rhs.Get(i, j))
    ensures OnlyWindowChanged(result)
  {
    var i := 1;
    while i <= rhs.rows
      invariant 1 <= i <= rhs.rows + 1
      invariant forall r, c :: i <= r <= result.rows && 1 <= c <= result.columns ==> rhs.Get(r, c) == old(rhs.Get(r, c))
      invariant forall r, c :: 1 <= r < i && 1 <= c <= result.columns ==> result.Get(r, c) == lhs * old(rhs.Get(r, c))
      invariant OnlyWindowChanged(result)
    {
      var j := 1;
      while j <= rhs.columns
        invariant 1 <= j <= rhs.columns + 1
        invariant forall r, c :: i < r <= result.rows && 1 <= c <= result.columns ==> rhs.Get(r, c) == old(rhs.Get(r, c))
        invariant forall c :: j <= c <= result.columns ==> rhs.Get(i, c) == old(rhs.Get(i, c))
        invariant forall r, c :: 1 <= r < i && 1 <= c <= result.columns ==> result.Get(r, c) == lhs * old(rhs.Get(r, c))
        invariant forall c :: 1 <= c < j ==> result.Get(i, c) == lhs * old(rhs.Get(i, c))
        invariant OnlyWindowChanged(result)
      {
        result.Put(i, j, lhs * rhs.Get(i, j));
        j := j + 1;
      }
      i := i + 1;
    }
  }

  /** `m_trn(in, result)` with its shape assertions corrected: `result` has `in`'s columns as
      rows and `in`'s rows as columns, and `in` must not share `result`'s data. Afterwards
      `result(j, i) == in(i, j)`. */
  method MTrn(source: MatrixView, result: MatrixView)
    requires source.Valid() && result.Valid()
    requires source.rows == result.columns && source.columns == result.rows
    requires Apart(result.data, source.data)
    modifies result.data
    ensures forall i, j :: 1 <= i <= source.rows && 1 <= j <= source.columns ==>
              result.Get(j, i) == source.Get(i, j)
    ensures OnlyWindowChanged(result)
  {
    var i := 1;
    while i <= source.rows
      invariant 1 <= i <= source.rows + 1
      invariant forall r, c :: 1 <= r < i && 1 <= c <= source.columns ==> result.Get(c, r) == source.Get(r, c)
      invariant OnlyWindowChanged(result)
    {
      var j := 1;
      while j <= source.columns
        invariant 1 <= j <= source.columns + 1
        invariant forall r, c :: 1 <= r < i && 1 <= c <= source.columns ==> result.Get(c, r) == source.Get(r, c)
        invariant forall c :: 1 <= c < j ==> result.Get(c, i) == source.Get(i, c)
        invariant OnlyWindowChanged(result)
      {
        result.Put(j, i, source.Get(i, j));
        j := j + 1;
      }
      i := i + 1;
    }
  }

  /** `m_trn` as written asserts that `result` has `in`'s shape. For a wide `in` (fewer rows
      than columns) those assertions pass, yet the loop's write `result(columns, 1)` lies past
      `result`'s rows, at an offset beyond the end of `result`'s window. */
  lemma TransposeAssertionsAdmitOutOfWindowWrite(source: MatrixView, result: MatrixView)
    requires SameShape(source, result) && 1 <= source.rows < source.columns
    ensures source.columns > result.rows
    ensures (source.columns - 1) * result.columns + (1 - 1) >= result.Size()
  {
    MulMonotone(result.rows, source.columns - 1, result.columns);
  }

  /** `mm_mul(lhs, rhs, result)`: each element of `result` is reset to zero and then
      accumulates `lhs(i, k) * rhs(k, j)` over `k`, giving row `i` of `lhs` dotted with column
      `j` of `rhs`. With an empty inner dimension every element is zero. */
  method MmMul(lhs: MatrixView, rhs: MatrixView, result: MatrixView)
    requires lhs.Valid() && rhs.Valid() && result.Valid()
    requires lhs.columns == rhs.rows && lhs.rows == result.rows && rhs.columns == result.columns
    requires Apart(result.data, lhs.data) && Apart(result.data, rhs.data)
    modifies result.data
    ensures forall i, j :: 1 <= i <= result.rows && 1 <= j <= result.columns ==>
              result.Get(i, j) == Dot(lhs.Row(i), rhs.Column(j))
    ensures lhs.columns == 0 ==>
              forall i, j :: 1 <= i <= result.rows && 1 <= j <= result.columns ==> result.Get(i, j) == 0
    ensures OnlyWindowChanged(result)
  {
    var i := 1;
    while i <= lhs.rows
      invariant 1 <= i <= lhs.rows + 1
      invariant forall r, c :: 1 <= r < i && 1 <= c <= result.columns ==>
                  result.Get(r, c) == Dot(lhs.Row(r), rhs.Column(c))
      invariant OnlyWindowChanged(result)
    {
      var j := 1;
      while j <= rhs.columns
        invariant 1 <= j <= rhs.columns + 1
        invariant forall r, c :: 1 <= r < i && 1 <= c <= result.columns ==>
                    result.Get(r, c) == Dot(lhs.Row(r), rhs.Column(c))
        invariant forall c :: 1 <= c < j ==> result.Get(i, c) == Dot(lhs.Row(i), rhs.Column(c))
        invariant OnlyWindowChanged(result)
      {
        AccumulateEntry(lhs, rhs, result, i, j);
        j := j + 1;
      }
      i := i + 1;
    }
  }

  /** The body of `mm_mul`'s `j` loop: element `(i, j)` of `result` is reset to zero, then
      accumulates `lhs(i, k) * rhs(k, j)` for `k` from 1 to `lhs.columns()`. Only that
      element changes. */
  method AccumulateEntry(lhs: MatrixView, rhs: MatrixView, result: MatrixView, i: nat, j: nat)
    requires lhs.Valid() && rhs.Valid() && result.Valid()
    requires lhs.columns == rhs.rows && lhs.rows == result.rows && rhs.columns == result.columns
    requires Apart(result.data, lhs.data) && Apart(result.data, rhs.data)
    requires 1 <= i <= result.rows && 1 <= j <= result.columns
    modifies result.data
    ensures result.Get(i, j) == Dot(lhs.Row(i), rhs.Column(j))
    ensures forall r, c :: 1 <= r <= result.rows && 1 <= c <= result.columns && (r != i || c != j) ==>
              result.Get(r, c) == old(result.Get(r, c))
    ensures OnlyWindowChanged(result)
  {
    assert result.data != lhs.data && result.data != rhs.data;
    result.Put(i, j, 0);
    ghost var row, column := lhs.Row(i), rhs.Column(j);
    var k := 1;
    while k <= lhs.columns
      invariant 1 <= k <= lhs.columns + 1
      invariant result.Get(i, j) == Dot(row[..k - 1], column[..k - 1])
      invariant forall r, c :: 1 <= r <= result.rows && 1 <= c <= result.columns && (r != i || c != j) ==>
                  result.Get(r, c) == old(result.Get(r, c))
      invariant OnlyWindowChanged(result)
    {
      var x, y := lhs.Get(i, k), rhs.Get(k, j);
      assert row[k - 1] == x && column[k - 1] == y;
      DotSnoc(row, column, k - 1);
      result.Put(i, j, result.Get(i, j) + x * y);
      k := k + 1;
    }
    assert row[..lhs.columns] == row && column[..rhs.rows] == column;
  }
}
