/** `tc::mv_ops`: matrix-vector products. For each output element the kernel writes zero and
    then accumulates products into it with `+=`, so the earlier contents of `result` never
    reach the outcome. The debug-build assertions on the sizes are the preconditions; the
    output buffer must not be an input's. */
module MvOps {
  import opened Checked
  import opened Algebra
  import opened MatrixViews
  import opened VectorViews

  /** `mv_mul(lhs, rhs, result)`: matrix by column vector, `result(i)` is row `i` of `lhs`
      dotted with `rhs`; zero throughout when `lhs` has no columns. */
  method MvMul(lhs: MatrixView, rhs: VectorView, result: VectorView)
    requires lhs.Valid() && rhs.Valid() && result.Valid()
    requires lhs.columns == rhs.len && lhs.rows == result.len
    requires Apart(result.buf, lhs.data) && Apart(result.buf, rhs.buf)
    modifies result.buf
    ensures forall k :: 1 <= k <= result.len ==> result.Get(k) == Dot(lhs.Row(k), rhs.Elements())
    ensures lhs.columns == 0 ==> forall k :: 1 <= k <= result.len ==> result.Get(k) == 0
    ensures result.OnlyWindowChanged()
  {
    var i := 1;
    while i <= lhs.rows
      invariant 1 <= i <= lhs.rows + 1
      invariant forall k :: 1 <= k < i ==> result.Get(k) == Dot(lhs.Row(k), rhs.Elements())
      invariant result.OnlyWindowChanged()
    {
      AccumulateRowProduct(lhs, rhs, result, i);
      i := i + 1;
    }
  }

  /** `mv_tmul(lhs, rhs, result)`: the transpose of `lhs` by a column vector, `result(j)` is
      column `j` of `lhs` dotted with `rhs`. */
  method MvTmul(lhs: MatrixView, rhs: VectorView, result: VectorView)
    requires lhs.Valid() && rhs.Valid() && result.Valid()
    requires lhs.rows == rhs.len && lhs.columns == result.len
    requires Apart(result.buf, lhs.data) && Apart(result.buf, rhs.buf)
    modifies result.buf
    ensures forall k :: 1 <= k <= result.len ==> result.Get(k) == Dot(lhs.Column(k), rhs.Elements())
    ensures lhs.rows == 0 ==> forall k :: 1 <= k <= result.len ==> result.Get(k) == 0
    ensures result.OnlyWindowChanged()
  {
    var j := 1;
    while j <= lhs.columns
      invariant 1 <= j <= lhs.columns + 1
      invariant forall k :: 1 <= k < j ==> result.Get(k) == Dot(lhs.Column(k), rhs.Elements())
      invariant result.OnlyWindowChanged()
    {
      AccumulateColumnProduct(lhs, rhs, result, j);
      j := j + 1;
    }
  }

  /** `vm_mul(lhs, rhs, result)`: row vector by matrix, `result(j)` is `lhs` dotted with
      column `j` of `rhs`. */
  method VmMul(lhs: VectorView, rhs: MatrixView, result: VectorView)
    requires lhs.Valid() && rhs.Valid() && result.Valid()
    requires lhs.len == rhs.rows && rhs.columns == result.len
    requires Apart(result.buf, lhs.buf) && Apart(result.buf, rhs.data)
    modifies result.buf
    ensures forall k :: 1 <= k <= result.len ==> result.Get(k) == Dot(lhs.Elements(), rhs.Column(k))
    ensures lhs.len == 0 ==> forall k :: 1 <= k <= result.len ==> result.Get(k) == 0
    ensures result.OnlyWindowChanged()
  {
    var j := 1;
    while j <= rhs.columns
      invariant 1 <= j <= rhs.columns + 1
      invariant forall k :: 1 <= k < j ==> result.Get(k) == Dot(lhs.Elements(), rhs.Column(k))
      invariant result.OnlyWindowChanged()
    {
      AccumulateVectorColumn(lhs, rhs, result, j);
      j := j + 1;
    }
  }

  /** The body of `mv_mul`'s outer loop: element `i` of `result` is reset to zero, then
      accumulates `lhs(i, j) * rhs(j)` for `j` from 1 to `lhs.columns()`. Only that element
      changes. */
  method AccumulateRowProduct(lhs: MatrixView, rhs: VectorView, result: VectorView, i: nat)
    requires lhs.Valid() && rhs.Valid() && result.Valid()
    requires lhs.columns == rhs.len && lhs.rows == result.len
    requires Apart(result.buf, lhs.data) && Apart(result.buf, rhs.buf)
    requires 1 <= i <= result.len
    modifies result.buf
    ensures result.Get(i) == Dot(lhs.Row(i), rhs.Elements())
    ensures forall k :: 1 <= k <= result.len && k != i ==> result.Get(k) == old(result.Get(k))
    ensures result.OnlyWindowChanged()
  {
    assert result.buf != lhs.data && result.buf != rhs.buf;
    result.Put(i, 0);
    ghost var row, v := lhs.Row(i), rhs.Elements();
    var j := 1;
    while j <= lhs.columns
      invariant 1 <= j <= lhs.columns + 1
      invariant result.Get(i) == Dot(row[..j - 1], v[..j - 1])
      invariant forall k :: 1 <= k <= result.len && k != i ==> result.Get(k) == old(result.Get(k))
      invariant result.OnlyWindowChanged()
    {
      var x, y := lhs.Get(i, j), rhs.Get(j);
      assert row[j - 1] == x && v[j - 1] == y;
      DotSnoc(row, v, j - 1);
      result.Put(i, result.Get(i) + x * y);
      j := j + 1;
    }
    assert row[..lhs.columns] == row && v[..rhs.len] == v;
  }

  /** The body of `mv_tmul`'s outer loop: element `j` of `result` is reset to zero, then
      accumulates `lhs(i, j) * rhs(i)` for `i` from 1 to `lhs.rows()`. Only that element
      changes. */
  method AccumulateColumnProduct(lhs: MatrixView, rhs: VectorView, result: VectorView, j: nat)
    requires lhs.Valid() && rhs.Valid() && result.Valid()
    requires lhs.rows == rhs.len && lhs.columns == result.len
    requires Apart(result.buf, lhs.data) && Apart(result.buf, rhs.buf)
    requires 1 <= j <= result.len
    modifies result.buf
    ensures result.Get(j) == Dot(lhs.Column(j), rhs.Elements())
    ensures forall k :: 1 <= k <= result.len && k != j ==> result.Get(k) == old(result.Get(k))
    ensures result.OnlyWindowChanged()
  {
    assert result.buf != lhs.data && result.buf != rhs.buf;
    result.Put(j, 0);
    ghost var column, v := lhs.Column(j), rhs.Elements();
    var i := 1;
    while i <= lhs.rows
      invariant 1 <= i <= lhs.rows + 1
      invariant result.Get(j) == Dot(column[..i - 1], v[..i - 1])
      invariant forall k :: 1 <= k <= result.len && k != j ==> result.Get(k) == old(result.Get(k))
      invariant result.OnlyWindowChanged()
    {
      var x, y := lhs.Get(i, j), rhs.Get(i);
      assert column[i - 1] == x && v[i - 1] == y;
      DotSnoc(column, v, i - 1);
      result.Put(j, result.Get(j) + x * y);
      i := i + 1;
    }
    assert column[..lhs.rows] == column && v[..rhs.len] == v;
  }

  /** The body of `vm_mul`'s outer loop: element `j` of `result` is reset to zero, then
      accumulates `lhs(i) * rhs(i, j)` for `i` from 1 to `lhs.size()`. Only that element
      changes. */
  method AccumulateVectorColumn(lhs: VectorView, rhs: MatrixView, result: VectorView, j: nat)
    requires lhs.Valid() && rhs.Valid() && result.Valid()
    requires lhs.len == rhs.rows && rhs.columns == result.len
    requires Apart(result.buf, lhs.buf) && Apart(result.buf, rhs.data)
    requires 1 <= j <= result.len
    modifies result.buf
    ensures result.Get(j) == Dot(lhs.Elements(), rhs.Column(j))
    ensures forall k :: 1 <= k <= result.len && k != j ==> result.Get(k) == old(result.Get(k))
    ensures result.OnlyWindowChanged()
  {
    assert result.buf != lhs.buf && result.buf != rhs.data;
    result.Put(j, 0);
    ghost var v, column := lhs.Elements(), rhs.Column(j);
    var i := 1;
    while i <= lhs.len
      invariant 1 <= i <= lhs.len + 1
      invariant result.Get(j) == Dot(v[..i - 1], column[..i - 1])
      invariant forall k :: 1 <= k <= result.len && k != j ==> result.Get(k) == old(result.Get(k))
      invariant result.OnlyWindowChanged()
    {
      var x, y := lhs.Get(i), rhs.Get(i, j);
      assert v[i - 1] == x && column[i - 1] == y;
      DotSnoc(v, column, i - 1);
      result.Put(j, result.Get(j) + x * y);
      i := i + 1;
    }
    assert v[..lhs.len] == v && column[..rhs.rows] == column;
  }

  /** `vm_mul(v, m)` and `mv_tmul(m, v)` specify the same output: for every column `j` of `m`,
      `v` dotted with the column equals the column dotted with `v`. */
  lemma VmMulMatchesMvTmul(v: seq<int>, m: MatrixView)
    requires m.Valid() && |v| == m.rows
    ensures forall j :: 1 <= j <= m.columns ==> Dot(v, m.Column(j)) == Dot(m.Column(j), v)
  {
    forall j | 1 <= j <= m.columns
      ensures Dot(v, m.Column(j)) == Dot(m.Column(j), v)
    {
      DotCommutes(v, m.Column(j));
    }
  }
}
