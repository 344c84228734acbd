/** Pure reference definitions of the vector arithmetic that the kernels compute in place,
    over integer elements, with the algebraic facts that relate them. */
module Algebra {

  /** Sum of the elements, accumulated left to right from `Element{}` (zero). */
  function Sum(s: seq<int>): int
  {
    if s == [] then 0 else Sum(s[..|s| - 1]) + s[|s| - 1]
  }

  /** Inner product, accumulated left to right from zero. */
  function Dot(a: seq<int>, b: seq<int>): int
    requires |a| == |b|
  {
    if a == [] then 0 else Dot(a[..|a| - 1], b[..|b| - 1]) + a[|a| - 1] * b[|b| - 1]
  }

  /** Extending both operands by one element adds that pair's product. */
  lemma DotSnoc(a: seq<int>, b: seq<int>, n: nat)
    requires |a| == |b| && n < |a|
    ensures Dot(a[..n + 1], b[..n + 1]) == Dot(a[..n], b[..n]) + a[n] * b[n]
  {
    assert a[..n + 1][..n] == a[..n] && b[..n + 1][..n] == b[..n];
  }

  function Add(a: seq<int>, b: seq<int>): seq<int>
    requires |a| == |b|
  {
    seq(|a|, k requires 0 <= k < |a| => a[k] + b[k])
  }

  function Sub(a: seq<int>, b: seq<int>): seq<int>
    requires |a| == |b|
  {
    seq(|a|, k requires 0 <= k < |a| => a[k] - b[k])
  }

  /** Hadamard (elementwise) product. */
  function HProd(a: seq<int>, b: seq<int>): seq<int>
    requires |a| == |b|
  {
    seq(|a|, k requires 0 <= k < |a| => a[k] * b[k])
  }

  /** Scalar on the left: `x * s(i)`. */
  function Scale(x: int, s: seq<int>): seq<int>
  {
    seq(|s|, k requires 0 <= k < |s| => x * s[k])
  }

  /** Scalar on the right: `s(i) * x`. */
  function ScaleBy(s: seq<int>, x: int): seq<int>
  {
    seq(|s|, k requires 0 <= k < |s| => s[k] * x)
  }

  function Map(f: int -> int, s: seq<int>): seq<int>
  {
    seq(|s|, k requires 0 <= k < |s| => f(s[k]))
  }

  function Fill(n: nat, x: int): seq<int>
  {
    seq(n, k => x)
  }

  /** Cross product of two 3-vectors, components in the order vv_cprod writes them. */
  function Cross(a: seq<int>, b: seq<int>): seq<int>
    requires |a| == 3 && |b| == 3
  {
    [a[1] * b[2] - a[2] * b[1],
     a[2] * b[0] - a[0] * b[2],
     a[0] * b[1] - a[1] * b[0]]
  }

  /** Subtracting what was added gives the original vector back. */
  lemma SubUndoesAdd(a: seq<int>, b: seq<int>)
    requires |a| == |b|
    ensures Sub(Add(a, b), b) == a
  {
  }

  /** The element sum is additive over elementwise addition. */
  lemma {:induction false} SumOfAdd(a: seq<int>, b: seq<int>)
    requires |a| == |b|
    ensures Sum(Add(a, b)) == Sum(a) + Sum(b)
  {
    if a != [] {
      var n := |a| - 1;
      assert Add(a, b)[..n] == Add(a[..n], b[..n]);
      SumOfAdd(a[..n], b[..n]);
    }
  }

  /** The dot product is the element sum of the Hadamard product. */
  lemma {:induction false} DotIsSumOfHProd(a: seq<int>, b: seq<int>)
    requires |a| == |b|
    ensures Dot(a, b) == Sum(HProd(a, b))
  {
    if a != [] {
      var n := |a| - 1;
      assert HProd(a, b)[..n] == HProd(a[..n], b[..n]);
      DotIsSumOfHProd(a[..n], b[..n]);
    }
  }

  /** The dot product does not depend on the order of its operands. */
  lemma {:induction false} DotCommutes(a: seq<int>, b: seq<int>)
    requires |a| == |b|
    ensures Dot(a, b) == Dot(b, a)
  {
    if a != [] {
      DotCommutes(a[..|a| - 1], b[..|b| - 1]);
    }
  }

  /** A scalar factor on the left of every element comes out of the sum. */
  lemma {:induction false} SumOfScale(x: int, s: seq<int>)
    ensures Sum(Scale(x, s)) == x * Sum(s)
  {
    if s != [] {
      var n := |s| - 1;
      assert Scale(x, s)[..n] == Scale(x, s[..n]);
      SumOfScale(x, s[..n]);
      assert x * Sum(s) == x * Sum(s[..n]) + x * s[n];
    }
  }

  /** Over the integers the scalar may stand on either side. */
  lemma ScaleSidesAgree(x: int, s: seq<int>)
    ensures Scale(x, s) == ScaleBy(s, x)
  {
  }

  /** A dot product of 3-vectors written out. */
  lemma DotOfThree(a: seq<int>, b: seq<int>)
    requires |a| == 3 && |b| == 3
    ensures Dot(a, b) == a[0] * b[0] + a[1] * b[1] + a[2] * b[2]
  {
    assert a[..2][..1] == a[..1] && b[..2][..1] == b[..1];
    assert Dot(a[..1], b[..1]) == a[0] * b[0];
  }

  /** The polynomial identity behind orthogonality: each monomial appears once with each sign. */
  lemma TripleProductVanishes(x0: int, x1: int, x2: int, y0: int, y1: int, y2: int,
                              c0: int, c1: int, c2: int)
    requires c0 == x1 * y2 - x2 * y1 && c1 == x2 * y0 - x0 * y2 && c2 == x0 * y1 - x1 * y0
    ensures c0 * x0 + c1 * x1 + c2 * x2 == 0
    ensures c0 * y0 + c1 * y1 + c2 * y2 == 0
  {
    MixedProductVanishes(x0, x1, x2, y0, y1, y2);
    MixedProductVanishes(y0, y1, y2, x0, x1, x2);
  }

  /** The cross product of `x` and `y`, dotted with `x`, vanishes. */
  lemma MixedProductVanishes(x0: int, x1: int, x2: int, y0: int, y1: int, y2: int)
    ensures (x1 * y2 - x2 * y1) * x0 + (x2 * y0 - x0 * y2) * x1 + (x0 * y1 - x1 * y0) * x2 == 0
  {
    MulDistributes(x1 * y2, x2 * y1, x0);
    MulDistributes(x2 * y0, x0 * y2, x1);
    MulDistributes(x0 * y1, x1 * y0, x2);
  }

  lemma MulDistributes(a: int, b: int, x: int)
    ensures (a - b) * x == a * x - b * x
  {
  }

  /** The cross product is orthogonal to both of its operands. */
  lemma CrossIsOrthogonal(a: seq<int>, b: seq<int>)
    requires |a| == 3 && |b| == 3
    ensures Dot(Cross(a, b), a) == 0 && Dot(Cross(a, b), b) == 0
  {
    var c := Cross(a, b);
    DotOfThree(c, a);
    DotOfThree(c, b);
    TripleProductVanishes(a[0], a[1], a[2], b[0], b[1], b[2], c[0], c[1], c[2]);
  }

  /** An empty inner dimension gives zero. */
  lemma DotOfEmpty(a: seq<int>, b: seq<int>)
    requires |a| == |b| == 0
    ensures Dot(a, b) == 0
  {
  }
}
