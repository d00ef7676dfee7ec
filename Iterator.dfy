/** The direction-aware cursor shared by the vector and the set
    (`vector<T>::_iterator<IterType>`). A cursor is a direction and a
    buffer index; `end()` is index `size`, `rbegin()` is `size - 1` and
    `rend()` is index -1. The const and non-const variants differ only in
    what may be written through them, so the model keeps just the
    direction. */
module PoolIterator {

  datatype Direction = Forward | Reverse

  datatype Iter = Iter(dir: Direction, pos: int)

  /** `size_t` is 64 bits wide. */
  const SizeTModulus: int := 0x1_0000_0000_0000_0000

  /** A signed difference cast to `size_t`: negative values wrap. */
  function ToSizeT(x: int): (r: nat)
    ensures r < SizeTModulus
    ensures 0 <= x < SizeTModulus ==> r == x
    ensures -SizeTModulus <= x < 0 ==> r == x + SizeTModulus
  {
    x % SizeTModulus
  }

  /** The index change of one increment in direction `d`. */
  function Step(d: Direction): int {
    if d == Forward then 1 else -1
  }

  /** `begin()`: the forward cursor at the first slot. */
  function Begin(): (r: Iter)
    ensures r.dir == Forward && r.pos == 0
  {
    Iter(Forward, 0)
  }

  /** `end()`: the forward cursor one past the last element, `size` steps
      from `begin()`. */
  function End(size: nat): (r: Iter)
    ensures r.dir == Forward
    ensures size < SizeTModulus ==> Distance(r, Begin()) == size
  {
    Iter(Forward, size)
  }

  /** `rbegin()`: the reverse cursor at the last element, the slot just
      before `end()`. */
  function RBegin(size: nat): (r: Iter)
    ensures r.dir == Reverse && r.pos + 1 == End(size).pos
  {
    Iter(Reverse, size - 1)
  }

  /** `rend()`: the reverse cursor at the slot just before `begin()`. */
  function REnd(): (r: Iter)
    ensures r.dir == Reverse && r.pos + 1 == Begin().pos
  {
    Iter(Reverse, -1)
  }

  /** `operator++` (both forms): one step in the iterator's own direction. */
  function Next(it: Iter): (r: Iter)
    ensures r.dir == it.dir && r.pos == it.pos + Step(it.dir)
  {
    if it.dir == Forward then it.(pos := it.pos + 1) else it.(pos := it.pos - 1)
  }

  /** `operator--` (both forms): one step against the iterator's direction. */
  function Prev(it: Iter): (r: Iter)
    ensures r.dir == it.dir && r.pos == it.pos - Step(it.dir)
  {
    if it.dir == Forward then it.(pos := it.pos - 1) else it.(pos := it.pos + 1)
  }

  /** `it + k` for an unsigned offset `k`: `k` steps in the iterator's own
      direction. */
  function Plus(it: Iter, k: nat): (r: Iter)
    ensures r.dir == it.dir && r.pos == it.pos + k * Step(it.dir)
  {
    if it.dir == Forward then it.(pos := it.pos + k) else it.(pos := it.pos - k)
  }

  /** `it - k` for an unsigned offset `k`: `k` steps against the
      iterator's direction. */
  function Minus(it: Iter, k: nat): (r: Iter)
    ensures r.dir == it.dir && r.pos == it.pos - k * Step(it.dir)
  {
    if it.dir == Forward then it.(pos := it.pos - k) else it.(pos := it.pos + k)
  }

  /** `a - b` between iterators of one container: the number of steps
      from `b` to `a` in the direction of travel, cast to `size_t`. */
  function Distance(a: Iter, b: Iter): (r: nat)
    ensures r < SizeTModulus
    ensures r == ToSizeT((a.pos - b.pos) * Step(a.dir))
  {
    if a.dir == Forward then ToSizeT(a.pos - b.pos) else ToSizeT(b.pos - a.pos)
  }

  /** `==` and `!=` compare the raw positions: two cursors of one
      direction are equal exactly when they are no steps apart. */
  predicate Equal(a: Iter, b: Iter)
    ensures a.dir == b.dir && -SizeTModulus < a.pos - b.pos < SizeTModulus ==>
              (Equal(a, b) <==> Distance(a, b) == 0)
  {
    a.pos == b.pos
  }

  /** `<` compares the raw positions, whatever the direction: for forward
      cursors `a < b` means `b` lies some steps ahead of `a`, for reverse
      cursors it means `a` lies some steps ahead of `b`. */
  predicate Less(a: Iter, b: Iter): (r: bool)
    ensures a.dir == b.dir ==>
      (r <==> exists k: nat :: k > 0 && if a.dir == Forward then b == Plus(a, k) else a == Plus(b, k))
  {
    if a.pos < b.pos then
      assert a.dir == b.dir ==>
        if a.dir == Forward then b == Plus(a, b.pos - a.pos) else a == Plus(b, b.pos - a.pos);
      true
    else
      false
  }

  /** `>` compares the raw positions too: it is `<` with the operands
      swapped. */
  predicate Greater(a: Iter, b: Iter): (r: bool)
    ensures r <==> Less(b, a)
  {
    a.pos > b.pos
  }

  /** Reference definition of offset arithmetic: `k` increments in a row. */
  function Advance(it: Iter, k: nat): Iter
    decreases k
  {
    if k == 0 then it else Advance(Next(it), k - 1)
  }

  /** Increment and decrement undo each other. */
  lemma NextPrevInverse(it: Iter)
    ensures Prev(Next(it)) == it && Next(Prev(it)) == it
  {
  }

  /** `it + k` is the same as `k` increments, so a reverse iterator's `+`
      moves toward lower indices. */
  lemma {:induction false} PlusIsRepeatedNext(it: Iter, k: nat)
    ensures Plus(it, k) == Advance(it, k)
    ensures Plus(it, k).pos == it.pos + k * Step(it.dir)
    decreases k
  {
    if k > 0 {
      PlusIsRepeatedNext(Next(it), k - 1);
    }
  }

  /** `it - k` undoes `it + k`. */
  lemma MinusUndoesPlus(it: Iter, k: nat)
    ensures Minus(Plus(it, k), k) == it
  {
  }

  /** The difference of `it + k` and `it` is `k` in either direction: the
      sign flip of the reverse difference matches the reversed step. */
  lemma DistanceOfPlus(it: Iter, k: nat)
    requires k < SizeTModulus
    ensures Distance(Plus(it, k), it) == k
  {
  }

  /** A forward range spans `size` steps, and so does a reverse one, even
      though `rend()` lies below `rbegin()`. */
  lemma RangeLengths(size: nat)
    requires size < SizeTModulus
    ensures Distance(End(size), Begin()) == size
    ensures Distance(REnd(), RBegin(size)) == size
    ensures size > 0 ==> Less(REnd(), RBegin(size)) && Greater(RBegin(size), REnd())
  {
  }

  /** Reversal of a sequence. */
  function Reversed<T>(s: seq<T>): seq<T> {
    if s == [] then [] else Reversed(s[1..]) + [s[0]]
  }

  lemma {:induction false} ReverseSnoc<T>(s: seq<T>, x: T)
    ensures Reversed(s + [x]) == [x] + Reversed(s)
  {
    if s == [] {
      assert [x][1..] == [];
    } else {
      assert (s + [x])[1..] == s[1..] + [x];
      ReverseSnoc(s[1..], x);
    }
  }

  /** `it` can reach `stop` by increments without leaving the buffer of a
      container that holds `size` elements. */
  ghost predicate Reaches(size: nat, it: Iter, stop: Iter) {
    it.dir == stop.dir &&
    if it.dir == Forward then 0 <= it.pos <= stop.pos <= size
    else -1 <= stop.pos <= it.pos < size
  }

  /** The values a loop `for (it = from; it != stop; ++it)` visits: the
      element under `it` and under each of its successors before `stop`. */
  function Walk<T>(s: seq<T>, it: Iter, stop: Iter): (r: seq<T>)
    requires Reaches(|s|, it, stop)
    ensures |r| == (stop.pos - it.pos) * Step(it.dir)
    ensures forall k :: 0 <= k < |r| ==> 0 <= Plus(it, k).pos < |s| && r[k] == s[Plus(it, k).pos]
    decreases (stop.pos - it.pos) * Step(it.dir)
  {
    if Equal(it, stop) then [] else [s[it.pos]] + Walk(s, Next(it), stop)
  }

  lemma {:induction false} WalkForward<T>(s: seq<T>, i: int, j: int)
    requires 0 <= i <= j <= |s|
    ensures Walk(s, Iter(Forward, i), Iter(Forward, j)) == s[i..j]
    decreases j - i
  {
    if i < j {
      WalkForward(s, i + 1, j);
      assert s[i..j] == [s[i]] + s[i + 1..j];
    }
  }

  lemma {:induction false} WalkReverse<T>(s: seq<T>, i: int, j: int)
    requires -1 <= j <= i < |s|
    ensures Walk(s, Iter(Reverse, i), Iter(Reverse, j)) == Reversed(s[j + 1..i + 1])
    decreases i - j
  {
    if i > j {
      WalkReverse(s, i - 1, j);
      assert s[j + 1..i + 1] == s[j + 1..i] + [s[i]];
      ReverseSnoc(s[j + 1..i], s[i]);
    }
  }

  /** Iterating `begin()`..`end()` yields the elements in order, and
      `rbegin()`..`rend()` yields them back to front. */
  lemma Traversals<T>(s: seq<T>)
    ensures Walk(s, Begin(), End(|s|)) == s
    ensures Walk(s, RBegin(|s|), REnd()) == Reversed(s)
  {
    WalkForward(s, 0, |s|);
    WalkReverse(s, |s| - 1, -1);
    assert s[0..|s|] == s;
  }

  /** [1, 2, 3] read forwards and backwards. */
  lemma ThreeElementTraversal()
    ensures Walk([1, 2, 3], Begin(), End(3)) == [1, 2, 3]
    ensures Walk([1, 2, 3], RBegin(3), REnd()) == [3, 2, 1]
  {
    Traversals([1, 2, 3]);
    assert [1, 2, 3][1..] == [2, 3] && [2, 3][1..] == [3];
  }
}
