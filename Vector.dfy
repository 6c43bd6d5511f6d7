/** TVector<T>, the growable buffer of vector.h: a size, a capacity and a heap
    block, with the sized constructors that throw length_error, the bounds-checked
    element access that throws out_of_range, capacity doubling on push_back, and
    the element-wise arithmetic used on vectors of int. */
module Vector {
  import opened Exceptions

  /** MAX_VECTOR_SIZE (vector.h:9). */
  const MaxVectorSize: int := 100000000

  /** The size test of both sized constructors: zero is refused, and so is anything
      above the maximum; a negative int converts to a size_t above the maximum. */
  predicate ValidSize(size: int) {
    0 < size <= MaxVectorSize
  }

  class TVector<T(0)> {
    var size: nat
    var capacity: nat
    var data: array<T>

    /** _size never exceeds _capacity, and the block holds _capacity elements. */
    ghost predicate Valid()
      reads this
    {
      capacity == data.Length && size <= capacity
    }

    /** The elements in use, [0, _size). */
    ghost function Contents(): seq<T>
      reads this, data
      requires Valid()
    {
      data[..size]
    }

    /** The member-initialiser part shared by the constructors: _size and _capacity
        set to n and a fresh block of n elements. The block's contents are whatever
        `new T[n]` leaves there, which for int and plain structs is indeterminate. */
    constructor Alloc(n: nat)
      ensures Valid() && fresh(data)
      ensures size == n && capacity == n
    {
      size, capacity := n, n;
      data := new T[n];
    }

    /** TVector(size_t size = 1): throws length_error for a bad size. */
    static method Make(size: int) returns (r: Result<TVector<T>>)
      ensures r.Failure? <==> !ValidSize(size)
      ensures r.Failure? ==> r.error == LengthError
      ensures r.Success? ==> fresh(r.value) && fresh(r.value.data) && r.value.Valid()
      ensures r.Success? ==> r.value.size == size && r.value.capacity == size
    {
      if size == 0 {
        return Failure(LengthError);
      }
      if size < 0 || size > MaxVectorSize {
        return Failure(LengthError);
      }
      var v := new TVector<T>.Alloc(size);
      return Success(v);
    }

    /** TVector(size_t size, const T& value): the same size checks, then every
        element is `value`. */
    static method MakeFilled(size: int, value: T) returns (r: Result<TVector<T>>)
      ensures r.Failure? <==> !ValidSize(size)
      ensures r.Failure? ==> r.error == LengthError
      ensures r.Success? ==> fresh(r.value) && fresh(r.value.data) && r.value.Valid()
      ensures r.Success? ==> r.value.size == size && r.value.capacity == size
      ensures r.Success? ==> forall i :: 0 <= i < size ==> r.value.Contents()[i] == value
    {
      if size == 0 {
        return Failure(LengthError);
      }
      if size < 0 || size > MaxVectorSize {
        return Failure(LengthError);
      }
      var v := new TVector<T>.Alloc(size);
      var i := 0;
      while i < size
        invariant 0 <= i <= size
        invariant fresh(v.data) && v.Valid() && v.size == size && v.capacity == size
        invariant forall k :: 0 <= k < i ==> v.data[k] == value
      {
        v.data[i] := value;
        i := i + 1;
      }
      return Success(v);
    }

    /** TVector(const T* data, size_t size): copies `size` elements from a buffer
        (here a sequence), with no size check at all. */
    static method FromSeq(s: seq<T>) returns (v: TVector<T>)
      ensures fresh(v) && fresh(v.data) && v.Valid()
      ensures v.capacity == |s| && v.Contents() == s
    {
      v := new TVector<T>.Alloc(|s|);
      var i := 0;
      while i < |s|
        invariant 0 <= i <= |s|
        invariant fresh(v.data) && v.Valid() && v.size == |s| && v.capacity == |s|
        invariant v.data[..i] == s[..i]
      {
        v.data[i] := s[i];
        i := i + 1;
      }
    }

    /** The copy constructor: same size and capacity, a fresh block holding the
        same elements in use. */
    method Clone() returns (c: TVector<T>)
      requires Valid()
      ensures fresh(c) && fresh(c.data) && c.Valid()
      ensures c.size == size && c.capacity == capacity && c.Contents() == Contents()
    {
      c := new TVector<T>.Alloc(capacity);
      c.size := size;
      var i := 0;
      while i < size
        invariant 0 <= i <= size
        invariant fresh(c.data) && c.Valid() && c.size == size && c.capacity == capacity
        invariant c.data[..i] == data[..i]
      {
        c.data[i] := data[i];
        i := i + 1;
      }
    }

    /** reallocate: a fresh block of `newCapacity` elements into which the elements
        in use are copied. A capacity below the size would copy past the new block,
        so callers never ask for one. */
    method Reallocate(newCapacity: nat)
      requires Valid() && size <= newCapacity
      modifies this
      ensures Valid() && fresh(data)
      ensures capacity == newCapacity && size == old(size)
      ensures Contents() == old(Contents())
    {
      var block := new T[newCapacity];
      var i := 0;
      while i < size
        invariant 0 <= i <= size
        invariant unchanged(this)
        invariant block[..i] == data[..i]
      {
        block[i] := data[i];
        i := i + 1;
      }
      data := block;
      capacity := newCapacity;
    }

    /** resize: grows the block to exactly `newSize` when it is too small, fills the
        new positions with the value-initialised element, and sets the size;
        shrinking only lowers the size. Callers pass T() as `zero`: 0 for a
        TVector<int>, Edge(0, 0, 0) for the Edge of kruskal.h. */
    method Resize(newSize: nat, zero: T)
      requires Valid()
      modifies this, data
      ensures Valid() && size == newSize
      ensures data == old(data) || fresh(data)
      ensures capacity == if newSize > old(capacity) then newSize else old(capacity)
      ensures newSize <= old(size) ==> Contents() == old(Contents())[..newSize]
      ensures newSize > old(size) ==>
                Contents() == old(Contents()) + seq(newSize - old(size), _ => zero)
    {
      if newSize > capacity {
        Reallocate(newSize);
      }
      var i := size;
      while i < newSize
        invariant Valid() && newSize <= capacity
        invariant data == old(data) || fresh(data)
        invariant size == old(size) && data[..size] == old(Contents())
        invariant size <= i && (i <= newSize || i == size)
        invariant forall k :: size <= k < i ==> data[k] == zero
        invariant capacity == if newSize > old(capacity) then newSize else old(capacity)
      {
        data[i] := zero;
        i := i + 1;
      }
      if newSize > old(size) {
        assert data[..newSize] == old(Contents()) + seq(newSize - old(size), _ => zero);
      } else {
        assert data[..newSize] == data[..size][..newSize];
      }
      size := newSize;
    }

    /** push_back: when the block is full its capacity doubles (from 0 to 1), then
        the value goes at the end. */
    method PushBack(value: T)
      requires Valid()
      modifies this, data
      ensures Valid()
      ensures data == old(data) || fresh(data)
      ensures Contents() == old(Contents()) + [value]
      ensures capacity == if old(size) == old(capacity)
                          then (if old(capacity) == 0 then 1 else 2 * old(capacity))
                          else old(capacity)
    {
      if size == capacity {
        var newCapacity := if capacity == 0 then 1 else capacity * 2;
        Reallocate(newCapacity);
      }
      data[size] := value;
      size := size + 1;
    }

    /** operator[] and at, read access (const and non-const alike): throws
        out_of_range exactly when the index is not below the size (a negative int
        index converts to a huge size_t). */
    method Get(index: int) returns (r: Result<T>)
      requires Valid()
      ensures r.Success? <==> 0 <= index < |Contents()|
      ensures r.Success? ==> r.value == Contents()[index]
      ensures r.Failure? ==> r.error == OutOfRange
    {
      if index < 0 || index >= size {
        return Failure(OutOfRange);
      }
      return Success(data[index]);
    }

    /** operator[] and at used as an lvalue: the same check, then one element is
        overwritten. */
    method Set(index: int, value: T) returns (r: Outcome)
      requires Valid()
      modifies data
      ensures Valid()
      ensures r == if 0 <= index < old(size) then Pass else Fail(OutOfRange)
      ensures Contents() == if r.Pass? then old(Contents())[index := value] else old(Contents())
    {
      if index < 0 || index >= size {
        return Fail(OutOfRange);
      }
      data[index] := value;
      return Pass;
    }
  }

  /** operator==: equal sizes and pairwise equal elements. */
  method Equal<T(0,==)>(a: TVector<T>, b: TVector<T>) returns (eq: bool)
    requires a.Valid() && b.Valid()
    ensures eq <==> a.Contents() == b.Contents()
  {
    if a.size != b.size {
      return false;
    }
    var i := 0;
    while i < a.size
      invariant 0 <= i <= a.size
      invariant forall k :: 0 <= k < i ==> a.data[k] == b.data[k]
    {
      if a.data[i] != b.data[i] {
        assert a.Contents()[i] != b.Contents()[i];
        return false;
      }
      i := i + 1;
    }
    assert a.Contents() == b.Contents();
    return true;
  }

  /** operator!=: the negation of operator==. */
  method NotEqual<T(0,==)>(a: TVector<T>, b: TVector<T>) returns (ne: bool)
    requires a.Valid() && b.Valid()
    ensures ne <==> a.Contents() != b.Contents()
  {
    var eq := Equal(a, b);
    ne := !eq;
  }

  /** The three scalar operators of TVector<int>. */
  datatype Op = Plus | Minus | Times

  function Apply(op: Op, x: int, y: int): int {
    match op
    case Plus => x + y
    case Minus => x - y
    case Times => x * y
  }

  /** operator+(T), operator-(T), operator*(T): a copy of `a` with `val` applied to
      every element in use; `a` itself is not changed. */
  method ScalarMap(a: TVector<int>, op: Op, val: int) returns (res: TVector<int>)
    requires a.Valid()
    ensures fresh(res) && fresh(res.data) && res.Valid()
    ensures res.size == a.size && res.capacity == a.capacity
    ensures forall i :: 0 <= i < a.size ==> res.Contents()[i] == Apply(op, a.Contents()[i], val)
  {
    res := a.Clone();
    var i := 0;
    while i < res.size
      invariant 0 <= i <= res.size
      invariant fresh(res.data) && res.Valid() && res.size == a.size && res.capacity == a.capacity
      invariant forall k :: 0 <= k < i ==> res.data[k] == Apply(op, a.data[k], val)
      invariant forall k :: i <= k < res.size ==> res.data[k] == a.data[k]
    {
      res.data[i] := Apply(op, res.data[i], val);
      i := i + 1;
    }
  }

  /** operator+(const TVector&) and operator-(const TVector&): length_error when
      the sizes differ, otherwise a copy of `a` with `b` added or subtracted
      element by element. */
  method Combine(a: TVector<int>, b: TVector<int>, subtract: bool) returns (r: Result<TVector<int>>)
    requires a.Valid() && b.Valid()
    ensures r.Failure? <==> a.size != b.size
    ensures r.Failure? ==> r.error == LengthError
    ensures r.Success? ==> fresh(r.value) && fresh(r.value.data) && r.value.Valid()
    ensures r.Success? ==> r.value.size == a.size && r.value.capacity == a.capacity
    ensures r.Success? ==> forall i :: 0 <= i < a.size ==>
              r.value.Contents()[i] == Apply(if subtract then Minus else Plus, a.Contents()[i], b.Contents()[i])
  {
    if a.size != b.size {
      return Failure(LengthError);
    }
    var res := a.Clone();
    var op := if subtract then Minus else Plus;
    var i := 0;
    while i < res.size
      invariant 0 <= i <= res.size
      invariant fresh(res.data) && res.Valid() && res.size == a.size && res.capacity == a.capacity
      invariant forall k :: 0 <= k < i ==> res.data[k] == Apply(op, a.data[k], b.data[k])
      invariant forall k :: i <= k < res.size ==> res.data[k] == a.data[k]
    {
      res.data[i] := Apply(op, res.data[i], b.data[i]);
      i := i + 1;
    }
    return Success(res);
  }

  /** The sum of the pairwise products of two equally long sequences. */
  function DotProduct(s: seq<int>, t: seq<int>): int
    requires |s| == |t|
  {
    if |s| == 0 then 0
    else DotProduct(s[..|s| - 1], t[..|t| - 1]) + s[|s| - 1] * t[|t| - 1]
  }

  /** The dot product does not depend on the order of its operands. */
  lemma {:induction false} DotProductCommutes(s: seq<int>, t: seq<int>)
    requires |s| == |t|
    ensures DotProduct(s, t) == DotProduct(t, s)
    decreases |s|
  {
    if |s| > 0 {
      DotProductCommutes(s[..|s| - 1], t[..|t| - 1]);
    }
  }

  /** operator*(const TVector&): length_error when the sizes differ, otherwise the
      dot product of the elements in use. */
  method Dot(a: TVector<int>, b: TVector<int>) returns (r: Result<int>)
    requires a.Valid() && b.Valid()
    ensures r.Failure? <==> a.size != b.size
    ensures r.Failure? ==> r.error == LengthError
    ensures r.Success? ==> r.value == DotProduct(a.Contents(), b.Contents())
  {
    if a.size != b.size {
      return Failure(LengthError);
    }
    var dot := 0;
    var i := 0;
    while i < a.size
      invariant 0 <= i <= a.size
      invariant dot == DotProduct(a.data[..i], b.data[..i])
    {
      assert a.data[..i + 1][..i] == a.data[..i] && b.data[..i + 1][..i] == b.data[..i];
      dot := dot + a.data[i] * b.data[i];
      i := i + 1;
    }
    assert a.data[..a.size] == a.Contents();
    return Success(dot);
  }
}
