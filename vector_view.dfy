/** `tc::vector_view`: the same window as `tc::array_view`, used as a mathematical vector, so
    its subscript is 1-indexed; `front`, `back`, `begin`, `end` and the shrinking members are
    those of `array_view`.
    A pointer is modelled as a backing buffer and a position in it (`buf`, `start`), with
    `buf == null` for the null pointer; a reference to an element is its position in `buf`. */
module VectorViews {
  import opened Checked

  class VectorView {
    var buf: array?<int>   // backing buffer of `_pointer`; null models nullptr
    var start: nat         // position of `_pointer` in `buf`
    var len: nat           // `_size`

    /** The window lies inside the backing buffer; a null pointer views nothing. */
    ghost predicate Valid()
      reads this
    {
      if buf == null then start == 0 && len == 0 else start + len <= buf.Length
    }

    /** The viewed elements, in order: element `i` (1-based) is `s[i - 1]`. */
    function Elements(): (s: seq<int>)
      requires Valid()
      reads this, buf
      ensures |s| == len
      ensures forall k :: 0 <= k < len ==> s[k] == Get(k + 1)
    {
      if buf == null then [] else buf[start..start + len]
    }

    /** Default constructor: null pointer, size 0. */
    constructor ()
      ensures Valid() && buf == null && start == 0 && len == 0
      ensures Empty()
    {
      buf, start, len := null, 0, 0;
    }

    /** Constructor from a pointer (`p` at position `offset`) and a size. */
    constructor FromPointer(p: array?<int>, offset: nat, size: nat)
      requires p == null ==> offset == 0 && size == 0
      requires p != null ==> offset + size <= p.Length
      ensures Valid() && buf == p && start == offset && len == size
    {
      buf, start, len := p, offset, size;
    }

    /** Constructor from the contiguous iterator range [first, last) of `a`: the size is
        `last - first`, and the pointer is null exactly when the range is empty. */
    constructor FromRange(a: array<int>, first: nat, last: nat)
      requires first <= last <= a.Length
      ensures Valid() && len == last - first
      ensures buf == null <==> len == 0
      ensures len > 0 ==> buf == a && start == first
      ensures Elements() == a[first..last]
    {
      len := last - first;
      if last - first == 0 {
        buf, start := null, 0;
      } else {
        buf, start := a, first;
      }
    }

    /** Constructor from a contiguous container, here an array: `std::data` and `std::size`. */
    constructor FromContainer(a: array<int>)
      ensures Valid() && buf == a && start == 0 && len == a.Length
      ensures Elements() == a[..]
    {
      buf, start, len := a, 0, a.Length;
    }

    /** `operator[](i)`, unchecked and 1-indexed: the position of element `i`, at offset
        `i - 1` from the pointer; `1 <= i <= size()` is the caller's obligation. */
    function Ref(i: nat): (p: nat)
      requires Valid() && 1 <= i <= len
      reads this
      ensures buf != null && start <= p < start + len && p < buf.Length
    {
      start + (i - 1)
    }

    /** The value `operator[](i)` refers to. */
    function Get(i: nat): int
      requires Valid() && 1 <= i <= len
      reads this, buf
    {
      buf[Ref(i)]
    }

    /** Writing `x` through `operator[](i)`: only that element of the buffer changes. */
    method Put(i: nat, x: int)
      requires Valid() && 1 <= i <= len
      modifies buf
      ensures buf != null && buf[Ref(i)] == x
      ensures forall k :: 0 <= k < buf.Length && k != Ref(i) ==> buf[k] == old(buf[k])
      ensures Get(i) == x
      ensures forall k :: 1 <= k <= len && k != i ==> Get(k) == old(Get(k))
    {
      buf[start + (i - 1)] := x;
    }

    /** Between a call's entry and exit, the view itself is unchanged and nothing of its buffer
        outside its window changed. */
    twostate predicate OnlyWindowChanged()
      reads this, buf
    {
      buf == old(buf) && start == old(start) && len == old(len) &&
      (buf != null ==>
        forall k :: 0 <= k < buf.Length && !(start <= k < start + len) ==> buf[k] == old(buf[k]))
    }

    /** `at(i)` as written: out of range when `i < 1` or `i >= size()`, and otherwise the
        element at offset `i` from the pointer, which is `operator[](i + 1)`, not `operator[](i)`. */
    function At(i: nat): (r: Result<nat>)
      requires Valid()
      reads this
      ensures r.Failure? <==> i < 1 || i >= len
      ensures r.Failure? ==> r.error == IndexOutOfBounds
      ensures r.Success? ==> i + 1 <= len && r.value == Ref(i + 1)
    {
      if i < 1 || i >= len then Failure(IndexOutOfBounds) else Success(start + i)
    }

    /** `at(i)` as a 1-indexed checked subscript is evidently meant: out of range exactly when
        `operator[](i)` would be, otherwise the same element as `operator[](i)`. */
    function AtIntended(i: nat): (r: Result<nat>)
      requires Valid()
      reads this
      ensures r.Failure? <==> i < 1 || i > len
      ensures r.Failure? ==> r.error == IndexOutOfBounds
      ensures r.Success? ==> r.value == Ref(i)
    {
      if i < 1 || i > len then Failure(IndexOutOfBounds) else Success(start + (i - 1))
    }

    /** `front()` (`_pointer[0]`): the same element as `operator[](1)`. */
    function Front(): (p: nat)
      requires Valid() && len > 0
      reads this
      ensures p == Ref(1)
    {
      start
    }

    /** `back()` (`_pointer[_size - 1]`): the same element as `operator[](size())`. */
    function Back(): (p: nat)
      requires Valid() && len > 0
      reads this
      ensures p == Ref(len)
    {
      start + len - 1
    }

    /** `begin()`, as a position: the first element's position, or `start` when empty. */
    function Begin(): (p: nat)
      requires Valid()
      reads this
      ensures len > 0 ==> p == Ref(1)
    {
      start
    }

    /** `end()`, as a position: one past the last element, so `end() - begin() == size()`. */
    function End(): (p: nat)
      requires Valid()
      reads this
      ensures p - Begin() == len
      ensures buf != null ==> p <= buf.Length
    {
      start + len
    }

    /** `size()`: the number of viewed elements. */
    function Size(): (n: nat)
      requires Valid()
      reads this, buf
      ensures n == |Elements()|
    {
      len
    }

    /** `empty()`: true exactly when the view has no elements. */
    function Empty(): (b: bool)
      requires Valid()
      reads this, buf
      ensures b <==> Elements() == []
      ensures b <==> Size() == 0
    {
      len == 0
    }

    /** `shrink_back(count)`: drops the last `count` elements; every remaining 1-based index
        still refers to the same element, and the buffer is untouched. */
    method ShrinkBack(count: nat)
      requires Valid() && count <= len
      modifies this
      ensures Valid()
      ensures buf == old(buf) && start == old(start) && len == old(len) - count
      ensures Elements() == old(Elements())[..old(len) - count]
      ensures forall i :: 1 <= i <= len ==> Ref(i) == old(Ref(i))
    {
      len := len - count;
    }

    /** `shrink_front(count)`: advances the pointer by `count`, so new `operator[](i)` is old
        `operator[](i + count)`; the buffer is untouched. */
    method ShrinkFront(count: nat)
      requires Valid() && count <= len
      modifies this
      ensures Valid()
      ensures buf == old(buf) && start == old(start) + count && len == old(len) - count
      ensures Elements() == old(Elements())[count..]
      ensures forall i :: 1 <= i <= len ==> Ref(i) == old(Ref(i + count))
    {
      start := start + count;
      len := len - count;
    }
  }

  /** An elementwise kernel may write `output` while it reads `input`: their buffers differ, or
      `output` is the very window `input` views (in-place use), where element `i` is read
      before it is overwritten. */
  predicate SameOrApart(output: VectorView, input: VectorView)
    reads output, input
  {
    Apart(output.buf, input.buf) || (output.buf == input.buf && output.start == input.start)
  }

  /** The discrepancy in `at`: for a view of two or more elements, `at(1)` refers to
      `operator[](2)`, and `at(size())` is refused although `operator[](size())` is valid. */
  lemma AtIsShiftedByOne(v: VectorView)
    requires v.Valid() && v.len >= 2
    ensures v.At(1) == Success(v.Ref(2)) && v.Ref(2) != v.Ref(1)
    ensures v.At(v.len).Failure? && v.AtIntended(v.len) == Success(v.Ref(v.len))
  {
  }

  /** Wherever the as-written `at(i)` succeeds, it agrees with the intended `at(i + 1)`. */
  lemma AtAgreesWithIntendedShifted(v: VectorView, i: nat)
    requires v.Valid()
    ensures v.At(i).Success? ==> v.At(i) == v.AtIntended(i + 1)
  {
  }
}
