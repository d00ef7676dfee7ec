/** `MultiCore::vector<T>`: a growable contiguous array whose buffer comes
    from a pool. The buffer is an `array<T>` whose length is the capacity;
    its first `size` slots are the live elements. `zero` is the value
    `T()` that fresh slots and cleared slots receive. A pool allocation is
    a fresh Dafny array, and releasing a buffer is dropping the reference. */
module PoolVector {

  /** Failures that the source reports with a debug assertion. */
  datatype Error = OutOfRange

  datatype Result<T> = Ok(value: T) | Err(error: Error)

  datatype Status = Done | Failed(error: Error)

  /** The capacity of the first buffer `push_back` allocates. */
  const InitialCapacity: nat := 10

  /** The growth policy of `push_back`: 10 slots at first, then doubling. */
  function GrownCapacity(capacity: nat): nat {
    if capacity == 0 then InitialCapacity else capacity + capacity
  }

  function Max(a: nat, b: nat): nat {
    if a < b then b else a
  }

  class Vector<T> {
    var data: array<T>
    var size: nat
    var capacity: nat
    const zero: T

    /** The object invariant: the live elements fit in the buffer, and
        `capacity` is the length of the buffer actually held. */
    ghost predicate Valid()
      reads this
    {
      size <= capacity && capacity == data.Length
    }

    /** The abstract value: the live elements in order. */
    ghost function Contents(): seq<T>
      reads this, data
      requires Valid()
    {
      data[..size]
    }

    /** The default constructor: no elements and no buffer yet. */
    constructor (zero: T)
      ensures Valid() && Contents() == [] && capacity == 0
      ensures this.zero == zero && fresh(data)
    {
      this.zero := zero;
      data := new T[0](_ => zero);
      size, capacity := 0, 0;
    }

    /** Construction from a `std::vector<T>` or an initializer list: both
        insert the whole source at `end()`. */
    constructor FromSeq(src: seq<T>, zero: T)
      ensures Valid() && Contents() == src && capacity == |src|
      ensures this.zero == zero && fresh(data)
    {
      this.zero := zero;
      data := new T[0](_ => zero);
      size, capacity := 0, 0;
      new;
      InsertList(0, src);
    }

    /** `size()`: the number of live elements. */
    function Size(): (r: nat)
      reads this, data
      requires Valid()
      ensures r == |Contents()|
    {
      size
    }

    /** `empty()`. */
    function IsEmpty(): (r: bool)
      reads this, data
      requires Valid()
      ensures r <==> Contents() == []
    {
      size == 0
    }

    /** `operator std::vector<T>()`: a copy of the live elements in order. */
    function ToSeq(): (r: seq<T>)
      reads this, data
      requires Valid()
      ensures |r| == Size() && forall k :: 0 <= k < |r| ==> At(k) == Ok(r[k])
    {
      data[..size]
    }

    /** `operator[]` for reading: bounds-checked against `size`. */
    function At(idx: nat): (r: Result<T>)
      reads this, data
      requires Valid()
      ensures r.Ok? <==> idx < |Contents()|
      ensures r.Ok? ==> r.value == Contents()[idx]
      ensures r.Err? ==> r.error == OutOfRange
    {
      if idx < size then Ok(data[idx]) else Err(OutOfRange)
    }

    /** `front()`: the first element of a non-empty vector. */
    function Front(): (r: Result<T>)
      reads this, data
      requires Valid()
      ensures r.Ok? <==> Contents() != []
      ensures r.Ok? ==> r.value == Contents()[0]
    {
      if size == 0 then Err(OutOfRange) else Ok(data[0])
    }

    /** `back()`: the last element of a non-empty vector. */
    function Back(): (r: Result<T>)
      reads this, data
      requires Valid()
      ensures r.Ok? <==> Contents() != []
      ensures r.Ok? ==> r.value == Contents()[|Contents()| - 1]
    {
      if size == 0 then Err(OutOfRange) else Ok(data[size - 1])
    }

    /** `operator[]` used to write through the returned reference. */
    method SetAt(idx: nat, v: T) returns (r: Status)
      requires Valid()
      modifies data
      ensures Valid()
      ensures r == Done <==> idx < old(size)
      ensures r.Failed? ==> r.error == OutOfRange
      ensures Contents() == if r == Done then old(Contents())[idx := v] else old(Contents())
    {
      if idx < size {
        data[idx] := v;
        r := Done;
      } else {
        r := Failed(OutOfRange);
      }
    }

    /** `reserve(n)`: when `n` exceeds the capacity, move the live elements
        into a new buffer of exactly `n` slots and record the new capacity. */
    method Reserve(n: nat)
      requires Valid()
      modifies this
      ensures Valid() && size == old(size) && Contents() == old(Contents())
      ensures capacity == Max(old(capacity), n)
      ensures n <= old(capacity) ==> data == old(data)
      ensures n > old(capacity) ==> fresh(data) && forall k :: size <= k < n ==> data[k] == zero
    {
      if n > capacity {
        var buffer := new T[n](_ => zero);
        var i := 0;
        while i < size
          invariant 0 <= i <= size
          invariant forall k :: 0 <= k < i ==> buffer[k] == data[k]
          invariant forall k :: size <= k < n ==> buffer[k] == zero
          modifies buffer
        {
          buffer[i] := data[i];
          i := i + 1;
        }
        data := buffer;
        capacity := n;
      }
    }

    /** `resize(n)`: make room for `n` elements and report `n` of them;
        slots that become live hold `T()`. */
    method Resize(n: nat)
      requires Valid()
      modifies this, data
      ensures Valid() && size == n && capacity == Max(old(capacity), n)
      ensures data == old(data) || fresh(data)
      ensures n <= old(size) ==> Contents() == old(Contents())[..n]
      ensures n > old(size) ==> Contents() == old(Contents()) + seq(n - old(size), _ => zero)
    {
      ghost var s := Contents();
      Reserve(n);
      if n > size {
        var i := size;
        while i < n
          invariant size <= i <= n
          invariant forall k :: 0 <= k < size ==> data[k] == s[k]
          invariant forall k :: size <= k < i ==> data[k] == zero
          modifies data
        {
          data[i] := zero;
          i := i + 1;
        }
        assert data[..n] == s + seq(n - size, _ => zero);
      } else {
        assert data[..n] == s[..n];
      }
      size := n;
    }

    /** `push_back(v)`: append, growing the buffer when it is full;
        returns the new size. */
    method PushBack(v: T) returns (newSize: nat)
      requires Valid()
      modifies this, data
      ensures Valid() && Contents() == old(Contents()) + [v]
      ensures newSize == size == old(size) + 1
      ensures old(size) < old(capacity) ==> capacity == old(capacity) && data == old(data)
      ensures old(size) == old(capacity) ==> capacity == GrownCapacity(old(capacity)) && fresh(data)
    {
      if size + 1 > capacity {
        Reserve(GrownCapacity(capacity));
      }
      data[size] := v;
      size := size + 1;
      newSize := size;
    }

    /** `pop_back()`: drop the last element; fails on an empty vector. */
    method PopBack() returns (r: Status)
      requires Valid()
      modifies this`size
      ensures Valid()
      ensures r == Done <==> old(size) > 0
      ensures r.Failed? ==> r.error == OutOfRange
      ensures Contents() == if r == Done then old(Contents())[..old(size) - 1] else old(Contents())
    {
      if size == 0 {
        r := Failed(OutOfRange);
      } else {
        size := size - 1;
        r := Done;
      }
    }

    /** `insert(at, v)`: shift the tail one slot right and write `v` at
        index `idx`; the buffer grows to exactly one more slot if full. */
    method Insert(idx: nat, v: T)
      requires Valid() && idx <= size
      modifies this, data
      ensures Valid() && (data == old(data) || fresh(data))
      ensures Contents() == old(Contents())[..idx] + [v] + old(Contents())[idx..]
      ensures capacity == Max(old(capacity), old(size) + 1)
    {
      ghost var s := Contents();
      Resize(size + 1);
      ghost var t := Contents();
      var i := size - 1;
      while i > idx
        invariant idx <= i <= size - 1
        invariant forall k :: 0 <= k <= i ==> data[k] == t[k]
        invariant forall k :: i < k < size ==> data[k] == s[k - 1]
        modifies data
      {
        data[i] := data[i - 1];
        i := i - 1;
      }
      data[idx] := v;
      assert data[..size] == s[..idx] + [v] + s[idx..];
    }

    /** `insert(at, begin, end)` and `insert(at, list)`: shift the tail
        right by `|vals|` slots and copy `vals` into the gap at index
        `idx`. */
    method InsertList(idx: nat, vals: seq<T>)
      requires Valid() && idx <= size
      modifies this, data
      ensures Valid() && (data == old(data) || fresh(data))
      ensures Contents() == old(Contents())[..idx] + vals + old(Contents())[idx..]
      ensures capacity == Max(old(capacity), old(size) + |vals|)
    {
      ghost var s := Contents();
      var n := |vals|;
      Resize(size + n);
      assert forall k :: 0 <= k < |s| ==> data[k] == s[k];
      ShiftRight(idx, n);
      CopyInto(idx, vals);
      ghost var u := s[..idx] + vals + s[idx..];
      forall k | 0 <= k < size ensures data[k] == u[k] {
        if k < idx {
          assert u[k] == s[k];
        } else if k < idx + n {
          assert u[k] == vals[k - idx];
        } else {
          assert u[k] == s[k - n];
        }
      }
      assert data[..size] == u;
    }

    /** The shifting loop of the list insert: moves the slots
        `[from, size - n)` up to `[from + n, size)`, working downward so that
        no slot is overwritten before it is read. */
    method ShiftRight(from: nat, n: nat)
      requires Valid() && from + n <= size
      modifies data
      ensures forall k :: 0 <= k < from + n ==> data[k] == old(data[k])
      ensures forall k :: from + n <= k < size ==> data[k] == old(data[k - n])
    {
      var i: int := size - 1;
      while i >= from + n
        invariant from + n - 1 <= i <= size - 1
        invariant forall k :: 0 <= k <= i ==> data[k] == old(data[k])
        invariant forall k :: i < k < size ==> data[k] == old(data[k - n])
      {
        data[i] := data[i - n];
        i := i - 1;
      }
    }

    /** The copying loop of the inserts: writes `vals` to the slots from
        `idx` on and leaves every other slot alone. */
    method CopyInto(idx: nat, vals: seq<T>)
      requires Valid() && idx + |vals| <= size
      modifies data
      ensures forall k :: 0 <= k < data.Length && !(idx <= k < idx + |vals|) ==> data[k] == old(data[k])
      ensures forall k :: idx <= k < idx + |vals| ==> data[k] == vals[k - idx]
    {
      var j := 0;
      while j < |vals|
        invariant 0 <= j <= |vals|
        invariant forall k :: 0 <= k < data.Length && !(idx <= k < idx + j) ==> data[k] == old(data[k])
        invariant forall k :: idx <= k < idx + j ==> data[k] == vals[k - idx]
      {
        data[idx + j] := vals[j];
        j := j + 1;
      }
    }

    /** `erase(at)`: shift the tail one slot left over index `idx`; returns
        the position of the erased element, which now holds its successor. */
    method Erase(idx: nat) returns (it: nat)
      requires Valid() && idx < size
      modifies this, data
      ensures Valid() && data == old(data) && capacity == old(capacity)
      ensures Contents() == old(Contents())[..idx] + old(Contents())[idx + 1..]
      ensures it == idx
    {
      ghost var s := Contents();
      var i := idx;
      while i < size - 1
        invariant idx <= i <= size - 1
        invariant forall k :: 0 <= k < idx ==> data[k] == s[k]
        invariant forall k :: idx <= k < i ==> data[k] == s[k + 1]
        invariant forall k :: i <= k < size ==> data[k] == s[k]
        modifies data
      {
        data[i] := data[i + 1];
        i := i + 1;
      }
      size := size - 1;
      it := idx;
      assert data[..size] == s[..idx] + s[idx + 1..];
    }

    /** `erase(begin, end)`: remove the elements in `[b, e)` by shifting the
        tail left; returns `b`. */
    method EraseRange(b: nat, e: nat) returns (it: nat)
      requires Valid() && b <= e <= size
      modifies this, data
      ensures Valid() && data == old(data) && capacity == old(capacity)
      ensures Contents() == old(Contents())[..b] + old(Contents())[e..]
      ensures it == b
    {
      ghost var s := Contents();
      var d := e - b;
      var i := b;
      while i + d < size
        invariant b <= i <= size - d
        invariant forall k :: 0 <= k < b ==> data[k] == s[k]
        invariant forall k :: b <= k < i ==> data[k] == s[k + d]
        invariant forall k :: i <= k < size ==> data[k] == s[k]
        modifies data
      {
        data[i] := data[i + d];
        i := i + 1;
      }
      size := size - d;
      it := b;
      assert data[..size] == s[..b] + s[e..];
    }

    /** `clear()`: overwrite every live slot with `T()` and report no
        elements, keeping the buffer for reuse. */
    method Clear()
      requires Valid()
      modifies this, data
      ensures Valid() && Contents() == [] && data == old(data) && capacity == old(capacity)
      ensures forall k :: 0 <= k < old(size) ==> data[k] == zero
      ensures forall k :: old(size) <= k < capacity ==> data[k] == old(data[k])
    {
      var i := 0;
      while i < size
        invariant 0 <= i <= size
        invariant forall k :: 0 <= k < i ==> data[k] == zero
        invariant forall k :: i <= k < data.Length ==> data[k] == old(data[k])
        modifies data
      {
        data[i] := zero;
        i := i + 1;
      }
      size := 0;
    }

    /** `operator=(rhs)`: an exact-fit deep copy of `rhs` in a new buffer. */
    method Assign(rhs: Vector<T>)
      requires Valid() && rhs.Valid() && rhs != this
      modifies this
      ensures Valid() && Contents() == rhs.Contents()
      ensures size == capacity == rhs.size
      ensures fresh(data)
    {
      size := rhs.size;
      capacity := size;
      var buffer := new T[capacity](_ => zero);
      var i := 0;
      while i < size
        invariant 0 <= i <= size
        invariant forall k :: 0 <= k < i ==> buffer[k] == rhs.data[k]
        modifies buffer
      {
        buffer[i] := rhs.data[i];
        i := i + 1;
      }
      data := buffer;
    }
  }

  /** Converting to a `std::vector<T>` and constructing from it again gives
      an equal sequence of elements. */
  method StdRoundTrip<T>(v: Vector<T>) returns (w: Vector<T>)
    requires v.Valid()
    ensures fresh(w) && w.Valid() && w.Contents() == v.Contents()
  {
    w := new Vector.FromSeq(v.ToSeq(), v.zero);
  }

  /** Pushes, a pop and an erase: the size is the net count, and the
      order is that of the surviving insertions. */
  method PushPopEraseScenario()
  {
    var v := new Vector<int>(0);
    var n := v.PushBack(1);
    n := v.PushBack(2);
    n := v.PushBack(3);
    assert n == 3 && v.capacity == InitialCapacity;
    var r := v.PopBack();
    var it := v.Erase(0);
    assert v.Contents() == [2];
  }
}
