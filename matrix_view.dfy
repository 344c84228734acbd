/** `tc::matrix_view`: a non-owning, row-major, 1-indexed view of `rows` x `columns` elements.
    Its fields are fixed at construction, so it is a value; a pointer is a backing buffer and a
    position in it (`data`, `offset`), `data == null` being the null pointer. */
module MatrixViews {
  import opened Checked
  import opened Algebra

  datatype MatrixView = MatrixView(data: array?<int>, offset: nat, rows: nat, columns: nat)
  {
    /** The `rows * columns` viewed elements lie inside the buffer; a null pointer views nothing. */
    ghost predicate Valid()
    {
      if data == null then offset == 0 && (rows == 0 || columns == 0)
      else offset + rows * columns <= data.Length
    }

    /** `size()`: the number of viewed elements, zero exactly when a dimension is zero. */
    function Size(): (n: nat)
      ensures n == 0 <==> rows == 0 || columns == 0
      ensures rows > 0 ==> columns <= n
    {
      MulPositive(rows, columns);
      rows * columns
    }

    /** The row-major offset of element `(r, c)` from the pointer: `(r - 1) * columns + (c - 1)`. */
    function Offset(r: nat, c: nat): (k: nat)
      requires 1 <= r <= rows && 1 <= c <= columns
      ensures k < Size()
    {
      OffsetBelow(rows, columns, r, c);
      (r - 1) * columns + (c - 1)
    }

    /** `operator()(r, c)`, unchecked: the position of element `(r, c)` in the buffer. */
    function Ref(r: nat, c: nat): (p: nat)
      requires Valid() && 1 <= r <= rows && 1 <= c <= columns
      ensures data != null && offset <= p < offset + Size() && p < data.Length
    {
      offset + Offset(r, c)
    }

    /** The value `operator()(r, c)` refers to. */
    function Get(r: nat, c: nat): int
      requires Valid() && 1 <= r <= rows && 1 <= c <= columns
      reads data
    {
      data[Ref(r, c)]
    }

    /** The viewed elements in memory order, `data()[0 .. size())`. */
    function Elements(): (s: seq<int>)
      requires Valid()
      reads data
      ensures |s| == Size()
      ensures forall r, c :: 1 <= r <= rows && 1 <= c <= columns ==> s[Offset(r, c)] == Get(r, c)
    {
      if data == null then [] else data[offset..offset + Size()]
    }

    /** Row `r` is the `columns` consecutive elements that start at `(r, 1)`. */
    function Row(r: nat): (s: seq<int>)
      requires Valid() && 1 <= r <= rows
      reads data
      ensures |s| == columns
      ensures forall c :: 1 <= c <= columns ==> s[c - 1] == Get(r, c)
    {
      if columns == 0 then []
      else
        OffsetBelow(rows, columns, r, columns);
        data[offset + Offset(r, 1)..offset + Offset(r, 1) + columns]
    }

    /** Column `c`: the elements `(1, c)`, ..., `(rows, c)`. */
    function Column(c: nat): (s: seq<int>)
      requires Valid() && 1 <= c <= columns
      reads data
      ensures |s| == rows
      ensures forall r :: 1 <= r <= rows ==> s[r - 1] == Get(r, c)
    {
      seq(rows, k requires 0 <= k < rows reads data => Get(k + 1, c))
    }

    /** `at(r, c)` as written: the row is checked first and refused when `r < 1 || r >= rows`,
        then the column when `c < 1 || c >= columns`; so the last row and the last column
        are refused. Otherwise the same element as `operator()(r, c)`. */
    function At(r: nat, c: nat): (res: Result<nat>)
      requires Valid()
      ensures res == Failure(RowOutOfBounds) <==> r < 1 || r >= rows
      ensures res == Failure(ColumnOutOfBounds) <==> 1 <= r < rows && (c < 1 || c >= columns)
      ensures res.Success? <==> 1 <= r < rows && 1 <= c < columns
      ensures res.Success? ==> r < rows && c < columns && res.value == Ref(r, c)
    {
      if r < 1 || r >= rows then Failure(RowOutOfBounds)
      else if c < 1 || c >= columns then Failure(ColumnOutOfBounds)
      else Success(Ref(r, c))
    }

    /** `at(r, c)` as evidently meant: refused exactly when `operator()(r, c)` would be out of
        the view, row first; otherwise the same element as `operator()(r, c)`. */
    function AtIntended(r: nat, c: nat): (res: Result<nat>)
      requires Valid()
      ensures res == Failure(RowOutOfBounds) <==> r < 1 || r > rows
      ensures res == Failure(ColumnOutOfBounds) <==> 1 <= r <= rows && (c < 1 || c > columns)
      ensures res.Success? <==> 1 <= r <= rows && 1 <= c <= columns
      ensures res.Success? ==> res.value == Ref(r, c)
    {
      if r < 1 || r > rows then Failure(RowOutOfBounds)
      else if c < 1 || c > columns then Failure(ColumnOutOfBounds)
      else Success(offset + (r - 1) * columns + (c - 1))
    }

    /** Writing `x` through `operator()(r, c)`: only that element of the buffer changes. */
    method Put(r: nat, c: nat, x: int)
      requires Valid() && 1 <= r <= rows && 1 <= c <= columns
      modifies data
      ensures data != null && data[Ref(r, c)] == x
      ensures forall k :: 0 <= k < data.Length && k != Ref(r, c) ==> data[k] == old(data[k])
      ensures Get(r, c) == x
      ensures forall i, j :: 1 <= i <= rows && 1 <= j <= columns && (i != r || j != c) ==>
                Get(i, j) == old(Get(i, j))
    {
      data[Ref(r, c)] := x;
      forall i, j | 1 <= i <= rows && 1 <= j <= columns && (i != r || j != c)
        ensures Get(i, j) == old(Get(i, j))
      {
        OffsetInjective(this, i, j, r, c);
      }
    }
  }

  /** The default constructor: null data, 0 rows and 0 columns, so nothing is viewed. */
  function Default(): (m: MatrixView)
    ensures m.Valid() && m.data == null && m.rows == 0 && m.columns == 0 && m.Size() == 0
  {
    MatrixView(null, 0, 0, 0)
  }

  /** An elementwise kernel may write `output` while it reads `input`: their buffers differ, or
      `output` views the very elements `input` does (in-place use), where element `(i, j)` is
      read before it is overwritten. */
  predicate SameOrApart(output: MatrixView, input: MatrixView)
  {
    Apart(output.data, input.data) ||
    (output.data == input.data && output.offset == input.offset && output.columns == input.columns)
  }

  /** Between a call's entry and exit, nothing of `m`'s buffer outside its window changed. */
  twostate predicate OnlyWindowChanged(m: MatrixView)
    reads m.data
  {
    m.data != null ==>
      forall k :: 0 <= k < m.data.Length && !(m.offset <= k < m.offset + m.Size()) ==>
        m.data[k] == old(m.data[k])
  }

  lemma MulPositive(a: nat, b: nat)
    ensures a * b == 0 <==> a == 0 || b == 0
    ensures a > 0 ==> b <= a * b
  {
    if a > 0 && b > 0 {
      assert a * b == (a - 1) * b + b;
    }
  }

  lemma MulMonotone(a: nat, b: nat, n: nat)
    requires a <= b
    ensures a * n <= b * n
  {
    assert b * n == a * n + (b - a) * n;
  }

  /** For 1-based `(r, c)` inside a `rows` x `columns` view, the row-major offset, and the end
      of row `r`, stay below `rows * columns`. */
  lemma OffsetBelow(rows: nat, columns: nat, r: nat, c: nat)
    requires 1 <= r <= rows && 1 <= c <= columns
    ensures (r - 1) * columns + (c - 1) < rows * columns
    ensures (r - 1) * columns + columns <= rows * columns
  {
    MulMonotone(r, rows, columns);
    assert (r - 1) * columns + columns == r * columns;
  }

  /** Distinct in-range `(r, c)` pairs address distinct offsets. */
  lemma {:induction false} OffsetInjective(m: MatrixView, r1: nat, c1: nat, r2: nat, c2: nat)
    requires 1 <= r1 <= m.rows && 1 <= c1 <= m.columns
    requires 1 <= r2 <= m.rows && 1 <= c2 <= m.columns
    ensures m.Offset(r1, c1) == m.Offset(r2, c2) ==> r1 == r2 && c1 == c2
  {
    if r1 < r2 {
      RowsApart(m.columns, r1, r2, c1, c2);
    } else if r2 < r1 {
      RowsApart(m.columns, r2, r1, c2, c1);
    }
  }

  /** Every element of a lower row comes before every element of a higher row. */
  lemma RowsApart(columns: nat, r1: nat, r2: nat, c1: nat, c2: nat)
    requires 1 <= r1 < r2 && 1 <= c1 <= columns && 1 <= c2 <= columns
    ensures (r1 - 1) * columns + (c1 - 1) < (r2 - 1) * columns + (c2 - 1)
  {
    MulMonotone(r1, r2 - 1, columns);
    assert (r1 - 1) * columns + columns == r1 * columns;
  }

  /** Every offset below `size()` is the offset of the element in row `k / columns + 1` and
      column `k % columns + 1`: with injectivity, the mapping is a row-major bijection. */
  lemma OffsetSurjective(m: MatrixView, k: nat)
    requires k < m.Size()
    ensures m.columns > 0
    ensures 1 <= k / m.columns + 1 <= m.rows && 1 <= k % m.columns + 1 <= m.columns
    ensures m.Offset(k / m.columns + 1, k % m.columns + 1) == k
  {
    var q, cols := k / m.columns, m.columns;
    assert k == q * cols + k % cols;
    if q >= m.rows {
      MulMonotone(m.rows, q, cols);
      assert false;
    }
  }

  /** Adjacent columns are one element apart; adjacent rows are `columns` elements apart. */
  lemma Strides(m: MatrixView, r: nat, c: nat)
    requires m.Valid() && 1 <= r <= m.rows && 1 <= c <= m.columns
    ensures c < m.columns ==> m.Ref(r, c + 1) == m.Ref(r, c) + 1
    ensures r < m.rows ==> m.Ref(r + 1, c) == m.Ref(r, c) + m.columns
  {
    assert r * m.columns == (r - 1) * m.columns + m.columns;
  }

  /** The discrepancy in `at`: in a view with at least one element, its last element (row
      `rows`, column `columns`) is refused, although `operator()` addresses it within the view. */
  lemma AtRefusesLastRowAndColumn(m: MatrixView)
    requires m.Valid() && m.rows >= 1 && m.columns >= 1
    ensures m.At(m.rows, m.columns) == Failure(RowOutOfBounds)
    ensures m.rows > 1 ==> m.At(1, m.columns) == Failure(ColumnOutOfBounds)
    ensures m.AtIntended(m.rows, m.columns) == Success(m.Ref(m.rows, m.columns))
  {
  }

  /** Read in memory order, the entries of `result` are those of `before` (a view's elements
      in memory order) mapped through `f`, whenever that holds entry by entry: the sequential
      meaning of the flat, parallel map. */
  lemma {:induction false} EntrywiseMapIsFlatMap(result: MatrixView, before: seq<int>, f: int -> int)
    requires result.Valid() && |before| == result.Size()
    requires forall i, j :: 1 <= i <= result.rows && 1 <= j <= result.columns ==>
               result.Get(i, j) == f(before[result.Offset(i, j)])
    ensures result.Elements() == Map(f, before)
  {
    forall k | 0 <= k < result.Size()
      ensures result.Elements()[k] == Map(f, before)[k]
    {
      OffsetSurjective(result, k);
    }
  }
}
