/** `tc::array_view`: a non-owning, 0-indexed window over caller-owned contiguous memory.
    A pointer is modelled as a backing buffer and a position in it (`buf`, `start`), with
    `buf == null` for the null pointer; a reference to an element is its position in `buf`. */
module ArrayViews {
  import opened Checked

  class ArrayView {
    var buf: array?<int>   // backing buffer of `_pointer`; null models nullptr
    var start: nat         // position of `_pointer` in `buf`
    var len: nat           // `_size`

    /** The window lies inside the backing buffer; a null pointer views nothing. */
    ghost predicate Valid()
      reads this
    {
      if buf == null then start == 0 && len == 0 else start + len <= buf.Length
    }

    /** The viewed elements, in order. */
    function Elements(): (s: seq<int>)
      requires Valid()
      reads this, buf
      ensures |s| == len
      ensures forall i :: 0 <= i < len ==> s[i] == Get(i)
    {
      if buf == null then [] else buf[start..start + len]
    }

    /** Default constructor: null pointer, size 0. */
    constructor ()
      ensures Valid() && buf == null && start == 0 && len == 0
      ensures Empty()
    {
      buf, start, len := null, 0, 0;
    }

    /** Constructor from a pointer (`p` at position `offset`) and a size. */
    constructor FromPointer(p: array?<int>, offset: nat, size: nat)
      requires p == null ==> offset == 0 && size == 0
      requires p != null ==> offset + size <= p.Length
      ensures Valid() && buf == p && start == offset && len == size
    {
      buf, start, len := p, offset, size;
    }

    /** Constructor from the contiguous iterator range [first, last) of `a`: the size is
        `last - first`, and the pointer is null exactly when the range is empty. */
    constructor FromRange(a: array<int>, first: nat, last: nat)
      requires first <= last <= a.Length
      ensures Valid() && len == last - first
      ensures buf == null <==> len == 0
      ensures len > 0 ==> buf == a && start == first
      ensures Elements() == a[first..last]
    {
      len := last - first;
      if last - first == 0 {
        buf, start := null, 0;
      } else {
        buf, start := a, first;
      }
    }

    /** Constructor from a contiguous container, here an array: `std::data` and `std::size`. */
    constructor FromContainer(a: array<int>)
      ensures Valid() && buf == a && start == 0 && len == a.Length
      ensures Elements() == a[..]
    {
      buf, start, len := a, 0, a.Length;
    }

    /** `operator[](i)`, unchecked: the position of element `i`, which must be in the window. */
    function Ref(i: nat): (p: nat)
      requires Valid() && i < len
      reads this
      ensures buf != null && start <= p < start + len && p < buf.Length
    {
      start + i
    }

    /** The value `operator[](i)` refers to. */
    function Get(i: nat): int
      requires Valid() && i < len
      reads this, buf
    {
      buf[Ref(i)]
    }

    /** `at(i)`: out of range exactly when `i >= size()`, otherwise the same element as `operator[](i)`. */
    function At(i: nat): (r: Result<nat>)
      requires Valid()
      reads this
      ensures r.Failure? <==> i >= len
      ensures r.Failure? ==> r.error == IndexOutOfBounds
      ensures r.Success? ==> r.value == Ref(i)
    {
      if i >= len then Failure(IndexOutOfBounds) else Success(start + i)
    }

    /** `front()`: element 0 of a non-empty view. */
    function Front(): (p: nat)
      requires Valid() && len > 0
      reads this
      ensures p == Ref(0)
    {
      start
    }

    /** `back()`: element `size() - 1` of a non-empty view. */
    function Back(): (p: nat)
      requires Valid() && len > 0
      reads this
      ensures p == Ref(len - 1)
    {
      start + len - 1
    }

    /** `begin()`, as a position: the first element's position, or `start` when empty. */
    function Begin(): (p: nat)
      requires Valid()
      reads this
      ensures len > 0 ==> p == Ref(0)
    {
      start
    }

    /** `end()`, as a position: one past the last element, so `end() - begin() == size()`. */
    function End(): (p: nat)
      requires Valid()
      reads this
      ensures p - Begin() == len
      ensures buf != null ==> p <= buf.Length
    {
      start + len
    }

    /** `size()`: the number of viewed elements. */
    function Size(): (n: nat)
      requires Valid()
      reads this, buf
      ensures n == |Elements()|
    {
      len
    }

    /** `empty()`: true exactly when the view has no elements. */
    function Empty(): (b: bool)
      requires Valid()
      reads this, buf
      ensures b <==> Elements() == []
      ensures b <==> Size() == 0
    {
      len == 0
    }

    /** `shrink_back(count)`: drops the last `count` elements; the pointer and the buffer are untouched. */
    method ShrinkBack(count: nat)
      requires Valid() && count <= len
      modifies this
      ensures Valid()
      ensures buf == old(buf) && start == old(start) && len == old(len) - count
      ensures Elements() == old(Elements())[..old(len) - count]
      ensures forall i :: 0 <= i < len ==> Ref(i) == old(Ref(i))
    {
      len := len - count;
    }

    /** `shrink_front(count)`: advances the pointer by `count`, so new element `i` is old element `i + count`. */
    method ShrinkFront(count: nat)
      requires Valid() && count <= len
      modifies this
      ensures Valid()
      ensures buf == old(buf) && start == old(start) + count && len == old(len) - count
      ensures Elements() == old(Elements())[count..]
      ensures forall i :: 0 <= i < len ==> Ref(i) == old(Ref(i + count))
    {
      start := start + count;
      len := len - count;
    }
  }
}
