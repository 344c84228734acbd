/** `tc::vector_ops`: vector kernels. Each loops over 1-based `i` and overwrites the output
    view's elements in place, or accumulates into a result returned by reference. A kernel
    reads element `i` of a vector as `v(i)`, the 1-indexed subscript of `vector_view`. The
    debug-build assertions on the sizes are the preconditions. An elementwise kernel may run in
    place (its output the very window of an input) or on separate buffers; the others need an
    output buffer that no input reads. */
module VectorOps {
  import opened Checked
  import opened Algebra
  import opened VectorViews
  import MatrixViews

  /** `sv_mul(lhs, rhs, result)`: the scalar `lhs` times every element of `rhs`. */
  method SvMul(lhs: int, rhs: VectorView, result: VectorView)
    requires rhs.Valid() && result.Valid() && rhs.len == result.len
    requires SameOrApart(result, rhs)
    modifies result.buf
    ensures result.Elements() == Scale(lhs, old(rhs.Elements()))
    ensures result.OnlyWindowChanged()
  {
    var i := 1;
    while i <= rhs.len
      invariant 1 <= i <= rhs.len + 1
      invariant forall k :: 1 <= k < i ==> result.Get(k) == lhs * old(rhs.Get(k))
      invariant forall k :: i <= k <= rhs.len ==> rhs.Get(k) == old(rhs.Get(k))
      invariant result.OnlyWindowChanged()
    {
      result.Put(i, lhs * rhs.Get(i));
      i := i + 1;
    }
  }

  /** `v_cpy(in, out)`: `out` receives the elements of `in`. */
  method VCpy(source: VectorView, out: VectorView)
    requires source.Valid() && out.Valid() && source.len == out.len
    requires SameOrApart(out, source)
    modifies out.buf
    ensures out.Elements() == old(source.Elements())
    ensures out.OnlyWindowChanged()
  {
    var i := 1;
    while i <= source.len
      invariant 1 <= i <= source.len + 1
      invariant forall k :: 1 <= k < i ==> out.Get(k) == old(source.Get(k))
      invariant forall k :: i <= k <= source.len ==> source.Get(k) == old(source.Get(k))
      invariant out.OnlyWindowChanged()
    {
      out.Put(i, source.Get(i));
      i := i + 1;
    }
  }

  /** `v_esum(in, result)`: the sum of the elements, accumulated from `Element{}`. The source's
      `result; += in(i);` does not compile; it is read as `result += in(i);`. */
  method VEsum(source: VectorView) returns (result: int)
    requires source.Valid()
    ensures result == Sum(source.Elements())
  {
    result := 0;
    var i := 1;
    while i <= source.len
      invariant 1 <= i <= source.len + 1
      invariant result == Sum(source.Elements()[..i - 1])
    {
      assert source.Elements()[..i][..i - 1] == source.Elements()[..i - 1];
      result := result + source.Get(i);
      i := i + 1;
    }
    assert source.Elements()[..source.len] == source.Elements();
  }

  /** `v_fill(vector, value)`: every element becomes `value`. The result depends on the size
      and `value` alone, so filling twice with `value` leaves what filling once does. */
  method VFill(vector: VectorView, value: int)
    requires vector.Valid()
    modifies vector.buf
    ensures vector.Elements() == Fill(vector.len, value)
    ensures vector.OnlyWindowChanged()
  {
    var i := 1;
    while i <= vector.len
      invariant 1 <= i <= vector.len + 1
      invariant forall k :: 1 <= k < i ==> vector.Get(k) == value
      invariant vector.OnlyWindowChanged()
    {
      vector.Put(i, value);
      i := i + 1;
    }
  }

  /** `v_fn(in, function, result)`: every element of `result` is `f` of the matching element of `in`. */
  method VFn(source: VectorView, f: int -> int, result: VectorView)
    requires source.Valid() && result.Valid() && source.len == result.len
    requires SameOrApart(result, source)
    modifies result.buf
    ensures result.Elements() == Map(f, old(source.Elements()))
    ensures result.OnlyWindowChanged()
  {
    var i := 1;
    while i <= source.len
      invariant 1 <= i <= source.len + 1
      invariant forall k :: 1 <= k < i ==> result.Get(k) == f(old(source.Get(k)))
      invariant forall k :: i <= k <= source.len ==> source.Get(k) == old(source.Get(k))
      invariant result.OnlyWindowChanged()
    {
      result.Put(i, f(source.Get(i)));
      i := i + 1;
    }
  }

  /** `vs_mul(lhs, rhs, result)`: every element of `lhs` times the scalar `rhs`. */
  method VsMul(lhs: VectorView, rhs: int, result: VectorView)
    requires lhs.Valid() && result.Valid() && lhs.len == result.len
    requires SameOrApart(result, lhs)
    modifies result.buf
    ensures result.Elements() == ScaleBy(old(lhs.Elements()), rhs)
    ensures result.OnlyWindowChanged()
  {
    var i := 1;
    while i <= lhs.len
      invariant 1 <= i <= lhs.len + 1
      invariant forall k :: 1 <= k < i ==> result.Get(k) == old(lhs.Get(k)) * rhs
      invariant forall k :: i <= k <= lhs.len ==> lhs.Get(k) == old(lhs.Get(k))
      invariant result.OnlyWindowChanged()
    {
      result.Put(i, lhs.Get(i) * rhs);
      i := i + 1;
    }
  }

  /** `vv_add(lhs, rhs, result)`: elementwise sum. */
  method VvAdd(lhs: VectorView, rhs: VectorView, result: VectorView)
    requires lhs.Valid() && rhs.Valid() && result.Valid()
    requires lhs.len == rhs.len && lhs.len == result.len
    requires SameOrApart(result, lhs) && SameOrApart(result, rhs)
    modifies result.buf
    ensures result.Elements() == Add(old(lhs.Elements()), old(rhs.Elements()))
    ensures result.OnlyWindowChanged()
  {
    var i := 1;
    while i <= lhs.len
      invariant 1 <= i <= lhs.len + 1
      invariant forall k :: 1 <= k < i ==> result.Get(k) == old(lhs.Get(k)) + old(rhs.Get(k))
      invariant forall k :: i <= k <= lhs.len ==> lhs.Get(k) == old(lhs.Get(k)) && rhs.Get(k) == old(rhs.Get(k))
      invariant result.OnlyWindowChanged()
    {
      result.Put(i, lhs.Get(i) + rhs.Get(i));
      i := i + 1;
    }
  }

  /** `vv_cprod(lhs, rhs, result)`: three straight-line writes of the cross product's
      components; the result is orthogonal to both operands. */
  method VvCprod(lhs: VectorView, rhs: VectorView, result: VectorView)
    requires lhs.Valid() && rhs.Valid() && result.Valid()
    requires lhs.len == 3 && rhs.len == 3 && result.len == 3
    requires Apart(result.buf, lhs.buf) && Apart(result.buf, rhs.buf)
    modifies result.buf
    ensures result.Elements() == Cross(lhs.Elements(), rhs.Elements())
    ensures Dot(result.Elements(), lhs.Elements()) == 0 && Dot(result.Elements(), rhs.Elements()) == 0
    ensures result.OnlyWindowChanged()
  {
    result.Put(1, lhs.Get(2) * rhs.Get(3) - lhs.Get(3) * rhs.Get(2));
    result.Put(2, lhs.Get(3) * rhs.Get(1) - lhs.Get(1) * rhs.Get(3));
    result.Put(3, lhs.Get(1) * rhs.Get(2) - lhs.Get(2) * rhs.Get(1));
    CrossIsOrthogonal(lhs.Elements(), rhs.Elements());
  }

  /** `vv_dprod(lhs, rhs, result)`: the inner product, accumulated from `Element{}`; zero for
      empty vectors. */
  method VvDprod(lhs: VectorView, rhs: VectorView) returns (result: int)
    requires lhs.Valid() && rhs.Valid() && lhs.len == rhs.len
    ensures result == Dot(lhs.Elements(), rhs.Elements())
    ensures result == Sum(HProd(lhs.Elements(), rhs.Elements()))
    ensures lhs.len == 0 ==> result == 0
  {
    result := 0;
    ghost var a, b := lhs.Elements(), rhs.Elements();
    var i := 1;
    while i <= lhs.len
      invariant 1 <= i <= lhs.len + 1
      invariant result == Dot(a[..i - 1], b[..i - 1])
    {
      var x, y := lhs.Get(i), rhs.Get(i);
      assert a[i - 1] == x && b[i - 1] == y;
      DotSnoc(a, b, i - 1);
      result := result + x * y;
      i := i + 1;
    }
    assert a[..lhs.len] == a && b[..rhs.len] == b;
    assert result == Dot(a, b);
    DotIsSumOfHProd(a, b);
  }

  /** `vv_hprod(lhs, rhs, result)`: Hadamard (elementwise) product. */
  method VvHprod(lhs: VectorView, rhs: VectorView, result: VectorView)
    requires lhs.Valid() && rhs.Valid() && result.Valid()
    requires lhs.len == rhs.len && lhs.len == result.len
    requires SameOrApart(result, lhs) && SameOrApart(result, rhs)
    modifies result.buf
    ensures result.Elements() == HProd(old(lhs.Elements()), old(rhs.Elements()))
    ensures result.OnlyWindowChanged()
  {
    var i := 1;
    while i <= lhs.len
      invariant 1 <= i <= lhs.len + 1
      invariant forall k :: 1 <= k < i ==> result.Get(k) == old(lhs.Get(k)) * old(rhs.Get(k))
      invariant forall k :: i <= k <= lhs.len ==> lhs.Get(k) == old(lhs.Get(k)) && rhs.Get(k) == old(rhs.Get(k))
      invariant result.OnlyWindowChanged()
    {
      result.Put(i, lhs.Get(i) * rhs.Get(i));
      i := i + 1;
    }
  }

  /** `vv_mprod(lhs, rhs, result)`: the outer product of a column vector and a row vector,
      `result(i, j) == lhs(i) * rhs(j)`. */
  method VvMprod(lhs: VectorView, rhs: VectorView, result: MatrixViews.MatrixView)
    requires lhs.Valid() && rhs.Valid() && result.Valid()
    requires lhs.len == result.rows && rhs.len == result.columns
    requires Apart(result.data, lhs.buf) && Apart(result.data, rhs.buf)
    modifies result.data
    ensures forall i, j :: 1 <= i <= result.rows && 1 <= j <= result.columns ==>
              result.Get(i, j) == lhs.Get(i) * rhs.Get(j)
    ensures MatrixViews.OnlyWindowChanged(result)
  {
    var i := 1;
    while i <= lhs.len
      invariant 1 <= i <= lhs.len + 1
      invariant forall r, c :: 1 <= r < i && 1 <= c <= result.columns ==> result.Get(r, c) == lhs.Get(r) * rhs.Get(c)
      invariant MatrixViews.OnlyWindowChanged(result)
    {
      var j := 1;
      while j <= rhs.len
        invariant 1 <= j <= rhs.len + 1
        invariant forall r, c :: 1 <= r < i && 1 <= c <= result.columns ==> result.Get(r, c) == lhs.Get(r) * rhs.Get(c)
        invariant forall c :: 1 <= c < j ==> result.Get(i, c) == lhs.Get(i) * rhs.Get(c)
        invariant MatrixViews.OnlyWindowChanged(result)
      {
        result.Put(i, j, lhs.Get(i) * rhs.Get(j));
        j := j + 1;
      }
      i := i + 1;
    }
  }

  /** `vv_sub(lhs, rhs, result)`: elementwise difference. */
  method VvSub(lhs: VectorView, rhs: VectorView, result: VectorView)
    requires lhs.Valid() && rhs.Valid() && result.Valid()
    requires lhs.len == rhs.len && lhs.len == result.len
    requires SameOrApart(result, lhs) && SameOrApart(result, rhs)
    modifies result.buf
    ensures result.Elements() == Sub(old(lhs.Elements()), old(rhs.Elements()))
    ensures result.OnlyWindowChanged()
  {
    var i := 1;
    while i <= lhs.len
      invariant 1 <= i <= lhs.len + 1
      invariant forall k :: 1 <= k < i ==> result.Get(k) == old(lhs.Get(k)) - old(rhs.Get(k))
      invariant forall k :: i <= k <= lhs.len ==> lhs.Get(k) == old(lhs.Get(k)) && rhs.Get(k) == old(rhs.Get(k))
      invariant result.OnlyWindowChanged()
    {
      result.Put(i, lhs.Get(i) - rhs.Get(i));
      i := i + 1;
    }
  }
}
