/** The growth, insertion (single value, range and list) and range-erase
    routines of `MultiCore::vector` exactly as they are written, on a value model of the raw buffer. Each
    routine reports the first write that leaves the allocated block, so
    the lemmas below can name inputs on which it misbehaves. The class in
    module PoolVector implements the behaviour these routines evidently
    intend. */
module AsWritten {
  import opened PoolIterator
  import opened PoolVector

  /** The raw state of a vector: the allocated block (`[]` for a null
      `_pData`), the `_size` field and the `_capacity` field, which the
      code does not always keep equal to the block's length. */
  datatype Buffer = Buffer(slots: seq<int>, size: nat, capacity: nat)

  /** Either the new state, or the index of the first slot accessed
      outside the allocated block. That access is a write in every case the
      insertions reach; only the shifting loop's `i < delta` case, a read
      of slot `i - delta` below 0, is a read, and no caller reaches it. */
  datatype Outcome = Fine(b: Buffer) | OutOfBounds(index: int)

  /** What holds of every state the code reaches: indices fit in `size_t`
      and the live elements and the recorded capacity lie inside the
      block. */
  ghost predicate Sane(b: Buffer) {
    |b.slots| < SizeTModulus && b.size <= |b.slots| && b.capacity <= |b.slots|
  }

  /** The live elements. */
  function Live(b: Buffer): seq<int>
    requires b.size <= |b.slots|
  {
    b.slots[..b.size]
  }

  /** A freshly allocated block of `n` value-initialised slots. */
  function Zeros(n: nat): (r: seq<int>)
    ensures |r| == n && forall k :: 0 <= k < n ==> r[k] == 0
  {
    seq(n, _ => 0)
  }

  /** `_pData[i] = v`, or the out-of-bounds write it would be. */
  function Write(b: Buffer, i: int, v: int): (r: Outcome)
    ensures 0 <= i < |b.slots| <==> r.Fine?
    ensures r.Fine? ==> r.b.slots == b.slots[i := v] && r.b.size == b.size &&
                        r.b.capacity == b.capacity
    ensures r.OutOfBounds? ==> r.index == i
  {
    if 0 <= i < |b.slots| then Fine(b.(slots := b.slots[i := v])) else OutOfBounds(i)
  }

  /** `reserve(n)` as written: a larger block is allocated and the live
      elements copied, but `_capacity` is updated only when there was an
      old block to copy from. */
  function ReserveAsWritten(b: Buffer, n: nat): (r: Outcome)
    requires Sane(b) && n < SizeTModulus
    ensures r.Fine? ==> Sane(r.b) && r.b.size == b.size && Live(r.b) == Live(b)
    ensures r.Fine? ==> |r.b.slots| == if n <= b.capacity then |b.slots| else n
    ensures r.Fine? && b.slots != [] ==> r.b.capacity == Max(b.capacity, n)
    ensures r.Fine? && b.slots == [] ==> r.b.capacity == b.capacity
    ensures r.OutOfBounds? <==> b.capacity < n < b.size && b.slots != []
    ensures r.OutOfBounds? ==> r.index == n
  {
    if n <= b.capacity then Fine(b)
    else if b.slots == [] then Fine(b.(slots := Zeros(n)))
    else if b.size > n then OutOfBounds(n)
    else
      Fine(Buffer(b.slots[..b.size] + Zeros(n - b.size), b.size, n))
  }

  /** `resize(n)` as written: `oldSize` is read after `_size` has already
      become `n`, so the loop writes slot `n` alone, one past the last
      live element. */
  function ResizeAsWritten(b: Buffer, n: nat): (r: Outcome)
    requires Sane(b) && n < SizeTModulus
    ensures r.OutOfBounds? ==> r.index == n
    ensures r.Fine? ==> Sane(r.b) && r.b.size == n < |r.b.slots| && r.b.slots[n] == 0
    ensures r.Fine? && n <= b.size ==> Live(r.b) == Live(b)[..n]
    ensures r.Fine? && b.size < n ==> Live(r.b)[..b.size] == Live(b)
  {
    match ReserveAsWritten(b, n)
    case OutOfBounds(i) => OutOfBounds(i)
    case Fine(r) => Write(r.(size := n), n, 0)
  }

  /** The downward shifting loop of the insertions, on `size_t` counters:
      while `i > low` (or `i >= low` when `inclusive`), copy slot
      `i - delta` into slot `i` and decrement `i`, which wraps from 0 to
      the largest `size_t`. The callers pass `delta <= low` (or
      `delta <= low + 1` when the bound is strict), so a counter that
      passes the loop test is never below `delta`. */
  function ShiftAsWritten(b: Buffer, i: nat, low: nat, inclusive: bool, delta: nat): (r: Outcome)
    requires |b.slots| < SizeTModulus && i < SizeTModulus
    ensures r.Fine? ==> |r.b.slots| == |b.slots| && r.b.size == b.size && r.b.capacity == b.capacity
    ensures r.Fine? ==> forall k {:trigger r.b.slots[k]} :: i < k < |b.slots| ==> r.b.slots[k] == b.slots[k]
    decreases if i < |b.slots| then i + 1 else 0
  {
    if !(if inclusive then i >= low else i > low) then Fine(b)
    else if i >= |b.slots| || i < delta then OutOfBounds(i)
    else
      ShiftAsWritten(b.(slots := b.slots[i := b.slots[i - delta]]),
                     if i == 0 then SizeTModulus - 1 else i - 1, low, inclusive, delta)
  }

  /** The lowest counter value the shifting loop visits. */
  function LowestVisited(low: nat, inclusive: bool): nat {
    if inclusive then low else low + 1
  }

  /** When the shift starts inside the block and neither wraps nor reads
      below slot 0, every slot `k` in the visited window receives the old
      slot `k - delta`, and every other slot keeps its value: working
      downward, no slot is read after it has been overwritten. */
  lemma {:induction false} ShiftMovesWindow(b: Buffer, i: nat, low: nat, inclusive: bool, delta: nat)
    requires |b.slots| < SizeTModulus && i < |b.slots|
    requires 0 < LowestVisited(low, inclusive) && delta <= LowestVisited(low, inclusive)
    ensures ShiftAsWritten(b, i, low, inclusive, delta).Fine?
    ensures forall k :: LowestVisited(low, inclusive) <= k <= i ==>
              ShiftAsWritten(b, i, low, inclusive, delta).b.slots[k] == b.slots[k - delta]
    ensures forall k {:trigger ShiftAsWritten(b, i, low, inclusive, delta).b.slots[k]} ::
              0 <= k < |b.slots| && !(LowestVisited(low, inclusive) <= k <= i) ==>
              ShiftAsWritten(b, i, low, inclusive, delta).b.slots[k] == b.slots[k]
    decreases i
  {
    if i >= LowestVisited(low, inclusive) {
      var b' := b.(slots := b.slots[i := b.slots[i - delta]]);
      ShiftMovesWindow(b', i - 1, low, inclusive, delta);
    }
  }

  /** The copying loop of the insertions: `_pData[idx++] = *iter`. */
  function CopyAsWritten(b: Buffer, idx: nat, vals: seq<int>): (r: Outcome)
    ensures r.Fine? <==> vals == [] || idx + |vals| <= |b.slots|
    ensures r.Fine? ==> r.b.size == b.size && r.b.capacity == b.capacity && |r.b.slots| == |b.slots|
    ensures r.Fine? && vals != [] ==>
      r.b.slots == b.slots[..idx] + vals + b.slots[idx + |vals|..]
    decreases |vals|
  {
    if vals == [] then Fine(b)
    else if idx >= |b.slots| then OutOfBounds(idx)
    else CopyAsWritten(b.(slots := b.slots[idx := vals[0]]), idx + 1, vals[1..])
  }

  /** `insert(at, val)` as written: grow by one through `resize`, shift
      the tail up one slot while `i > idx`, and store `val` at `idx`. */
  function InsertAsWritten(b: Buffer, idx: nat, v: int): (r: Outcome)
    requires Sane(b) && b.size + 1 < SizeTModulus
    ensures r.Fine? ==> Sane(r.b) && r.b.size == b.size + 1 &&
                        idx < |r.b.slots| && r.b.slots[idx] == v
  {
    match ResizeAsWritten(b, b.size + 1)
    case OutOfBounds(i) => OutOfBounds(i)
    case Fine(r) =>
      match ShiftAsWritten(r, r.size - 1, idx, false, 1)
      case OutOfBounds(i) => OutOfBounds(i)
      case Fine(s) => Write(s, idx, v)
  }

  /** `insert(at, begin, end)` as written: the shift moves elements by one
      slot, not by the length of the range, and stops one slot early. */
  function InsertRangeAsWritten(b: Buffer, idx: nat, vals: seq<int>): (r: Outcome)
    requires Sane(b) && b.size + |vals| < SizeTModulus
    ensures r.Fine? ==> Sane(r.b) && r.b.size == b.size + |vals|
    ensures r.Fine? && vals != [] ==>
      idx + |vals| <= |r.b.slots| && r.b.slots[idx..idx + |vals|] == vals
  {
    match ResizeAsWritten(b, b.size + |vals|)
    case OutOfBounds(i) => OutOfBounds(i)
    case Fine(r) =>
      match ShiftAsWritten(r, ToSizeT(r.size - 1), idx + |vals|, false, 1)
      case OutOfBounds(i) => OutOfBounds(i)
      case Fine(s) => CopyAsWritten(s, idx, vals)
  }

  /** `insert(at, list)` as written: the shift is right, but its `size_t`
      counter cannot fall below zero, so `i >= 0` never fails. */
  function InsertListAsWritten(b: Buffer, idx: nat, vals: seq<int>): (r: Outcome)
    requires Sane(b) && b.size + |vals| < SizeTModulus
    ensures r.Fine? ==> Sane(r.b) && r.b.size == b.size + |vals|
    ensures r.Fine? && vals != [] ==>
      idx + |vals| <= |r.b.slots| && r.b.slots[idx..idx + |vals|] == vals
  {
    match ResizeAsWritten(b, b.size + |vals|)
    case OutOfBounds(i) => OutOfBounds(i)
    case Fine(r) =>
      match ShiftAsWritten(r, ToSizeT(r.size - 1), idx + |vals|, true, |vals|)
      case OutOfBounds(i) => OutOfBounds(i)
      case Fine(s) => CopyAsWritten(s, idx, vals)
  }

  /** `erase(begin, end)` as written: outside the test build nothing is
      removed; the result is the iterator `begin`. */
  function EraseRangeAsWritten(b: Buffer, first: nat, last: nat): (r: (Buffer, nat))
    ensures b.size <= |b.slots| ==> r.0.size <= |r.0.slots| && Live(r.0) == Live(b)
    ensures r.1 == first
  {
    (b, first)
  }

  /** The sequence `s` with `mid` put in at position `idx`. */
  function Spliced(s: seq<int>, idx: nat, mid: seq<int>): seq<int>
    requires idx <= |s|
  {
    s[..idx] + mid + s[idx..]
  }

  /** Inserting one value into a buffer whose capacity matches its block
      succeeds exactly when one slot more than the new size is allocated
      (`resize` writes slot `size + 1`), and then places the value at
      `idx` with the tail moved up by one. */
  lemma InsertSplicesLive(b: Buffer, idx: nat, v: int)
    requires Sane(b) && |b.slots| == b.capacity && idx <= b.size && b.size + 1 < SizeTModulus
    ensures InsertAsWritten(b, idx, v).Fine? <==> b.size + 1 < b.capacity
    ensures InsertAsWritten(b, idx, v).Fine? ==>
              Live(InsertAsWritten(b, idx, v).b) == Spliced(Live(b), idx, [v])
  {
    ResizeOutOfBoundsExactly(b, b.size + 1);
    if b.size + 1 < b.capacity {
      var r := ResizeWithinCapacity(b, b.size + 1);
      var s := ShiftedAfterResize(b, b.size + 1, idx, false, 1);
      assert InsertAsWritten(b, idx, v) == Write(s, idx, v);
      var w := Write(s, idx, v).b;
      assert w.slots[idx..idx + 1] == [v];
      SplicedByWindows(b.slots, w.slots, b.size, idx, [v]);
    }
  }

  /** Inserting a non-empty list, with at least one slot to spare beyond
      the new size, succeeds and splices the list in at `idx`: the faulty
      loop condition matters only when the shift would reach slot 0. */
  lemma InsertListSplicesLive(b: Buffer, idx: nat, vals: seq<int>)
    requires Sane(b) && idx <= b.size && vals != [] && b.size + |vals| < b.capacity
    ensures InsertListAsWritten(b, idx, vals).Fine?
    ensures Live(InsertListAsWritten(b, idx, vals).b) == Spliced(Live(b), idx, vals)
  {
    var s := InsertListShifted(b, idx, vals);
    var w := CopyAsWritten(s, idx, vals).b;
    SplicedByWindows(b.slots, w.slots, b.size, idx, vals);
  }

  /** The state `InsertListAsWritten` reaches before its copying loop, when
      there is a slot to spare: the tail has moved up by `|vals|` and the
      slots below `idx` are untouched. */
  lemma InsertListShifted(b: Buffer, idx: nat, vals: seq<int>) returns (s: Buffer)
    requires Sane(b) && idx <= b.size && vals != [] && b.size + |vals| < b.capacity
    ensures |s.slots| == |b.slots| && s.size == b.size + |vals|
    ensures InsertListAsWritten(b, idx, vals) == CopyAsWritten(s, idx, vals)
    ensures forall k {:trigger s.slots[k]} :: 0 <= k < idx ==> s.slots[k] == b.slots[k]
    ensures forall k :: idx + |vals| <= k < s.size ==> s.slots[k] == b.slots[k - |vals|]
  {
    s := ShiftedAfterResize(b, b.size + |vals|, idx + |vals|, true, |vals|);
    InsertListReachesCopy(b, idx, vals, s);
  }

  /** When the shift after growing inside the capacity ends in `s`, what
      remains of `insert(at, list)` is the copying loop on `s`. */
  lemma InsertListReachesCopy(b: Buffer, idx: nat, vals: seq<int>, s: Buffer)
    requires Sane(b) && vals != [] && b.size + |vals| < b.capacity
    requires ShiftAsWritten(Buffer(b.slots[b.size + |vals| := 0], b.size + |vals|, b.capacity),
                            b.size + |vals| - 1, idx + |vals|, true, |vals|) == Fine(s)
    ensures InsertListAsWritten(b, idx, vals) == CopyAsWritten(s, idx, vals)
  {
    var n := b.size + |vals|;
    var r := ResizeWithinCapacity(b, n);
    assert ToSizeT(r.size - 1) == n - 1;
  }

  /** Growing to `n` inside the capacity and then running the shift from
      slot `n - 1`, stated against the slots before the growth: below the
      visited window they are unchanged, and inside it each slot `k` holds
      the old slot `k - delta`. */
  lemma ShiftedAfterResize(b: Buffer, n: nat, low: nat, inclusive: bool, delta: nat) returns (s: Buffer)
    requires Sane(b) && b.size <= n < b.capacity && 0 < n
    requires 0 < LowestVisited(low, inclusive) && delta <= LowestVisited(low, inclusive)
    ensures ShiftAsWritten(Buffer(b.slots[n := 0], n, b.capacity), n - 1, low, inclusive, delta) == Fine(s)
    ensures |s.slots| == |b.slots| && s.size == n && s.capacity == b.capacity
    ensures forall k {:trigger s.slots[k]} :: 0 <= k < n && k < LowestVisited(low, inclusive) ==> s.slots[k] == b.slots[k]
    ensures forall k :: LowestVisited(low, inclusive) <= k < n ==> s.slots[k] == b.slots[k - delta]
  {
    var r := Buffer(b.slots[n := 0], n, b.capacity);
    ShiftMovesWindow(r, n - 1, low, inclusive, delta);
    s := ShiftAsWritten(r, n - 1, low, inclusive, delta).b;
    forall k | LowestVisited(low, inclusive) <= k < n
      ensures s.slots[k] == b.slots[k - delta]
    {
      assert s.slots[k] == r.slots[k - delta];
    }
    forall k | 0 <= k < n && k < LowestVisited(low, inclusive)
      ensures s.slots[k] == b.slots[k]
    {
      assert s.slots[k] == r.slots[k];
    }
  }

  /** Below the recorded capacity, `resize` only sets the size and zeroes
      slot `n`. */
  lemma ResizeWithinCapacity(b: Buffer, n: nat) returns (r: Buffer)
    requires Sane(b) && n < b.capacity
    ensures r == Buffer(b.slots[n := 0], n, b.capacity) && ResizeAsWritten(b, n) == Fine(r)
  {
    r := Buffer(b.slots[n := 0], n, b.capacity);
    assert ReserveAsWritten(b, n) == Fine(b);
  }

  /** Inserting a range at `end()` appends it: with `idx == size` the
      shifting loop never runs, unless the new size is 0, when its counter
      starts at the largest `size_t`. So on a buffer whose capacity matches
      its block the insertion succeeds exactly when the new size is
      positive and below the capacity. */
  lemma InsertRangeAtEndAppends(b: Buffer, vals: seq<int>)
    requires Sane(b) && b.size + |vals| < SizeTModulus
    ensures InsertRangeAsWritten(b, b.size, vals).Fine? ==>
              Live(InsertRangeAsWritten(b, b.size, vals).b) == Live(b) + vals
    ensures |b.slots| == b.capacity ==>
              (InsertRangeAsWritten(b, b.size, vals).Fine? <==> 0 < b.size + |vals| < b.capacity)
  {
    var n := b.size + |vals|;
    if |b.slots| == b.capacity {
      ResizeOutOfBoundsExactly(b, n);
    }
    if ResizeAsWritten(b, n).Fine? {
      var r := ResizeAsWritten(b, n).b;
      if n == 0 {
        assert ShiftAsWritten(r, ToSizeT(r.size - 1), b.size + |vals|, false, 1).OutOfBounds?;
      } else {
        assert ShiftAsWritten(r, ToSizeT(r.size - 1), b.size + |vals|, false, 1) == Fine(r);
        assert r.slots[..b.size] == b.slots[..b.size];
        if vals != [] {
          var w := CopyAsWritten(r, b.size, vals).b;
          assert w.slots[..n] == r.slots[..b.size] + vals;
        }
      }
    }
  }

  /** A block whose first `idx` slots are the old ones, followed by `mid`
      and then by the old slots `idx` to `size`, holds the old live
      elements with `mid` spliced in. */
  lemma SplicedByWindows(before: seq<int>, after: seq<int>, size: nat, idx: nat, mid: seq<int>)
    requires idx <= size <= |before| && size + |mid| <= |after|
    requires forall k :: 0 <= k < idx ==> after[k] == before[k]
    requires after[idx..idx + |mid|] == mid
    requires forall k :: idx + |mid| <= k < size + |mid| ==> after[k] == before[k - |mid|]
    ensures after[..size + |mid|] == Spliced(before[..size], idx, mid)
  {
    var want := Spliced(before[..size], idx, mid);
    forall k | 0 <= k < size + |mid|
      ensures after[k] == want[k]
    {
      if k < idx {
        assert want[k] == before[k];
      } else if k < idx + |mid| {
        assert want[k] == mid[k - idx] == after[idx..idx + |mid|][k - idx];
      } else {
        assert want[k] == before[k - |mid|];
      }
    }
  }

  /** On a buffer whose capacity matches its block, growing to `n` writes
      out of bounds exactly when `n` reaches the capacity, as every
      insertion into a full vector does, since `reserve` allocates exactly
      `n` slots. */
  lemma ResizeOutOfBoundsExactly(b: Buffer, n: nat)
    requires Sane(b) && |b.slots| == b.capacity && b.size <= n < SizeTModulus
    ensures ResizeAsWritten(b, n).OutOfBounds? <==> n >= b.capacity
    ensures ResizeAsWritten(b, n).OutOfBounds? ==> ResizeAsWritten(b, n).index == n
  {
  }

  /** Growing inside the capacity leaves slots `[old size, n)` as they
      were instead of value-initialising them. */
  lemma ResizeLeavesStaleSlots(b: Buffer, n: nat)
    requires Sane(b) && b.size <= n < b.capacity
    ensures ResizeAsWritten(b, n).Fine?
    ensures ResizeAsWritten(b, n).b.size == n
    ensures Live(ResizeAsWritten(b, n).b) == b.slots[..n]
  {
  }

  /** [4] in a block of two: growing to 2 writes slot 2. */
  lemma ResizeFullCounterexample()
    ensures ResizeAsWritten(Buffer([4, 9], 1, 2), 2) == OutOfBounds(2)
  {
    ResizeOutOfBoundsExactly(Buffer([4, 9], 1, 2), 2);
  }

  /** [4] in a block of three whose unused slot holds 9: growing to 2
      yields [4, 9] instead of [4, 0]. */
  lemma ResizeStaleCounterexample()
    ensures ResizeAsWritten(Buffer([4, 9, 0], 1, 3), 2) == Fine(Buffer([4, 9, 0], 2, 3))
    ensures Live(Buffer([4, 9, 0], 2, 3)) == [4, 9]
  {
    assert [4, 9, 0][2 := 0] == [4, 9, 0];
  }

  /** Reserving on a vector without a block allocates the block but leaves
      `_capacity` unchanged, so the next growth allocates again. */
  lemma ReserveFromNullKeepsCapacity(b: Buffer, n: nat)
    requires Sane(b) && b.slots == [] && b.capacity < n < SizeTModulus
    ensures ReserveAsWritten(b, n).Fine?
    ensures |ReserveAsWritten(b, n).b.slots| == n
    ensures ReserveAsWritten(b, n).b.capacity == b.capacity
  {
  }

  /** A default-constructed vector after `reserve(10)` still records
      capacity 0. */
  lemma ReserveCounterexample()
    ensures ReserveAsWritten(Buffer([], 0, 0), 10) == Fine(Buffer(Zeros(10), 0, 0))
  {
  }

  /** [1, 2, 3] with room for six: inserting the range [8, 9] at the
      front yields [8, 9, 3, 3, 0] instead of [8, 9, 1, 2, 3]. */
  lemma InsertRangeCounterexample()
    ensures InsertRangeAsWritten(Buffer([1, 2, 3, 0, 0, 0], 3, 6), 0, [8, 9]) ==
            Fine(Buffer([8, 9, 3, 3, 0, 0], 5, 6))
  {
    var b := Buffer([1, 2, 3, 0, 0, 0], 3, 6);
    assert ResizeAsWritten(b, 5) == Fine(Buffer([1, 2, 3, 0, 0, 0], 5, 6));
    var r := Buffer([1, 2, 3, 0, 0, 0], 5, 6);
    assert ShiftAsWritten(r, 4, 2, false, 1) == ShiftAsWritten(Buffer([1, 2, 3, 0, 0, 0], 5, 6), 3, 2, false, 1);
    assert ShiftAsWritten(Buffer([1, 2, 3, 0, 0, 0], 5, 6), 3, 2, false, 1) ==
           ShiftAsWritten(Buffer([1, 2, 3, 3, 0, 0], 5, 6), 2, 2, false, 1);
    assert CopyAsWritten(Buffer([1, 2, 3, 3, 0, 0], 5, 6), 0, [8, 9]) ==
           CopyAsWritten(Buffer([8, 2, 3, 3, 0, 0], 5, 6), 1, [9]);
    assert CopyAsWritten(Buffer([8, 2, 3, 3, 0, 0], 5, 6), 1, [9]) ==
           CopyAsWritten(Buffer([8, 9, 3, 3, 0, 0], 5, 6), 2, []);
  }

  /** [7] with room for three: inserting an empty list at the front lets
      the `size_t` counter wrap, and the next write lands at the largest
      `size_t`. */
  lemma InsertListCounterexample()
    ensures InsertListAsWritten(Buffer([7, 0, 0], 1, 3), 0, []) == OutOfBounds(SizeTModulus - 1)
  {
    var b := Buffer([7, 0, 0], 1, 3);
    assert ResizeAsWritten(b, 1) == Fine(b);
    assert ShiftAsWritten(b, 0, 0, true, 0) == ShiftAsWritten(b, SizeTModulus - 1, 0, true, 0);
  }

  /** Constructing a vector from a list, `insert(end(), src)` on a null
      buffer, writes out of bounds at slot `|src|`: `reserve` from a null
      buffer allocates exactly `|src|` slots, or none for an empty list,
      and `resize` then writes the slot just past them. */
  lemma InsertListIntoNullOutOfBounds(vals: seq<int>)
    requires |vals| < SizeTModulus
    ensures InsertListAsWritten(Buffer([], 0, 0), 0, vals) == OutOfBounds(|vals|)
  {
    var b := Buffer([], 0, 0);
    if vals == [] {
      assert ReserveAsWritten(b, 0) == Fine(b);
    } else {
      assert ReserveAsWritten(b, |vals|) == Fine(b.(slots := Zeros(|vals|)));
    }
  }

  /** The first insertion into an empty set, which grows the vector through
      `resize(1)`, writes slot 1 of the one-slot block `reserve` allocates. */
  lemma SetFirstInsertCounterexample()
    ensures InsertAsWritten(Buffer([], 0, 0), 0, 5) == OutOfBounds(1)
  {
    assert ReserveAsWritten(Buffer([], 0, 0), 1) == Fine(Buffer([0], 0, 0));
  }

  /** The second insertion, from the state the first one leaves apart from
      its stray write (one slot holding 5, capacity still 0), writes slot 2
      of the two-slot block `reserve` allocates. */
  lemma SetSecondInsertCounterexample()
    ensures InsertAsWritten(Buffer([5], 1, 0), 0, 3) == OutOfBounds(2)
  {
    assert ReserveAsWritten(Buffer([5], 1, 0), 2) == Fine(Buffer([5, 0], 1, 2));
  }

  /** Every single-value insertion into a full vector writes one slot
      past the block that `reserve` has just allocated for it. */
  lemma InsertIntoFullOutOfBounds(b: Buffer, idx: nat, v: int)
    requires Sane(b) && |b.slots| == b.capacity == b.size && b.size + 1 < SizeTModulus
    ensures InsertAsWritten(b, idx, v) == OutOfBounds(b.size + 1)
  {
    ResizeOutOfBoundsExactly(b, b.size + 1);
  }

  /** [1, 2, 3]: erasing `[begin(), begin() + 2)` leaves [1, 2, 3], where
      removing the range yields [3]. */
  lemma EraseRangeCounterexample()
    ensures Live(EraseRangeAsWritten(Buffer([1, 2, 3], 3, 3), 0, 2).0) == [1, 2, 3]
    ensures [1, 2, 3][..0] + [1, 2, 3][2..] == [3]
  {
  }
}
