# MultiCore pool vector and sorted set, in Dafny

This project models two containers of the `MultiCore` thread utilities.

- `MultiCore::vector<T>` is a growable array. It owns a raw buffer whose length `_capacity` is meant to record (as written, `reserve` from a null buffer leaves them apart; see "## Findings"). The first `_size` slots are live.
- `MultiCore::vector<T>::_iterator` is the container's direction-aware cursor.
- `MultiCore::set<T>` keeps its elements strictly ascending inside such a vector. It finds them by binary search.

The model has five modules:

- `PoolIterator` (`Iterator.dfy`) models a cursor as a direction plus a buffer index. It covers increment, decrement, offset arithmetic, the `size_t` difference, the comparisons and what a `begin()`..`end()` or `rbegin()`..`rend()` loop visits.
- `PoolVector` (`PoolVector.dfy`) holds the class `Vector<T>`:
  - the fields are an `array<T>` buffer, `size` and `capacity`;
  - `zero` stands for `T()`;
  - the queries (`Size`, `IsEmpty`, `ToSeq`, `At`, `Front`, `Back`) are functions of that state;
  - every operation that changes the vector is a method proved against the abstract contents `data[..size]`;
  - debug-build `assert`s on bad indices become `Err(OutOfRange)` / `Failed(OutOfRange)` results.
- `Ascending` (`Ascending.dfy`) holds the facts about strictly ascending integer sequences that the set relies on:
  - insertion point, splitting, cardinality;
  - canonicity: two ascending sequences with the same values are equal.
- `PoolSet` (`PoolSet.dfy`) holds the class `Set` over `int`. It is backed by a `Vector<int>` and specified by its ascending contents and its mathematical set of members.
- `AsWritten` (`AsWritten.dfy`) models the growth, insertion (single value, range and list) and range-erase routines exactly as written, on a value model of the raw buffer. The class methods in `PoolVector` implement what those routines evidently intend; "## Findings" lists each difference. The set's range erase forwards to the vector's, so `PoolSet.Set.EraseRange` also implements the intended removal, not the as-written one. The set's insert and the list constructors go through the vector's `insert`, which grows through `resize`, so the `resize` and `reserve` defects reach them too: as written, the first and second insertions into a new set write out of bounds, and so does constructing a vector from any list. `PoolSet.Set.Insert`, `PoolSet.Set.FromSeq` and `PoolVector.Vector.FromSeq` implement the intended behaviour.

## Model

| member | source | states |
|---|---|---|
| PoolIterator.Begin | threads/include/pool_vector.hpp:228-238 | `begin()` is the forward cursor at slot 0 |
| PoolIterator.End | threads/include/pool_vector.hpp:240-250 | `end()` is a forward cursor `size` steps from `begin()` |
| PoolIterator.RBegin | threads/include/pool_vector.hpp:252-262 | `rbegin()` is the reverse cursor at the slot just before `end()` |
| PoolIterator.REnd | threads/include/pool_vector.hpp:264-274 | `rend()` is the reverse cursor at the slot just before `begin()` |
| PoolIterator.Next | threads/include/pool_vector.hpp:420-442 | `++` (both forms) moves one slot in the iterator's direction: up for forward, down for reverse |
| PoolIterator.Prev | threads/include/pool_vector.hpp:444-464 | `--` (both forms) moves one slot against the iterator's direction |
| PoolIterator.Plus | threads/include/pool_vector.hpp:464-476 | `it + k` moves `k` slots in the iterator's direction |
| PoolIterator.Minus | threads/include/pool_vector.hpp:476-488 | `it - k` moves `k` slots against the iterator's direction |
| PoolIterator.Distance | threads/include/pool_vector.hpp:488-500 | `a - b` is the signed number of steps from `b` to `a` in the direction of travel, cast to `size_t` |
| PoolIterator.Equal | threads/include/pool_vector.hpp:388-404 | `==` / `!=`: two cursors of one direction, less than 2^64 slots apart, are equal exactly when their difference is 0 |
| PoolIterator.Less | threads/include/pool_vector.hpp:404-412 | `<` on raw positions: for forward cursors `a < b` means `b` is some steps ahead of `a`; for reverse cursors it means `a` is ahead of `b` |
| PoolIterator.Greater | threads/include/pool_vector.hpp:412-420 | `>` is `<` with the operands swapped |
| PoolIterator.Walk | threads/include/pool_vector.hpp:420-431 | the loop `for (it = from; it != stop; ++it)` visits, in order, the elements under `it`, `it + 1`, and so on, and no more than the number of steps to `stop` |
| PoolIterator.ToSizeT | threads/include/pool_vector.hpp:490-500 | a signed pointer difference cast to `size_t` is kept when non-negative and wraps by 2^64 when negative |
| PoolIterator.NextPrevInverse | threads/include/pool_vector.hpp:422-464 | `++` and `--` undo each other in both directions |
| PoolIterator.PlusIsRepeatedNext | threads/include/pool_vector.hpp:422-476 | `it + k` equals `k` increments of `it`; its index moves by `k` up for forward and down for reverse iterators |
| PoolIterator.MinusUndoesPlus | threads/include/pool_vector.hpp:466-488 | `(it + k) - k == it` |
| PoolIterator.DistanceOfPlus | threads/include/pool_vector.hpp:466-500 | the iterator difference of `it + k` and `it` is `k` in both directions |
| PoolIterator.RangeLengths | threads/include/pool_vector.hpp:228-274 | `end() - begin()` and `rend() - rbegin()` are both the size; `rend() < rbegin()` on raw positions for a non-empty vector |
| PoolIterator.Traversals | threads/include/pool_vector.hpp:228-274 | iterating `begin()`..`end()` visits the elements in order; `rbegin()`..`rend()` visits them reversed |
| PoolIterator.ThreeElementTraversal | threads/include/pool_vector.hpp:422-431 | [1, 2, 3] is read as [1, 2, 3] forwards and [3, 2, 1] in reverse |
| PoolVector.Vector.FromSeq | threads/include/pool_vector.hpp:40-49 | construction from a `std::vector` or an initializer list holds exactly the source, with capacity equal to its length |
| PoolVector.Vector.Size | threads/include/pool_vector.hpp:86-92 | `size()` is the number of live elements |
| PoolVector.Vector.IsEmpty | threads/include/pool_vector.hpp:79-83 | `empty()` holds exactly when there are no live elements |
| PoolVector.Vector.ToSeq | threads/include/pool_vector.hpp:57-63 | conversion to `std::vector` has the same length and, at every index, the element `at` reads there |
| PoolVector.Vector.At | threads/include/pool_vector.hpp:328-335 | `operator[]` yields the element at an index below the size and reports out-of-range otherwise |
| PoolVector.Vector.Front | threads/include/pool_vector.hpp:276-296 | `front()` is the first element, and an error on an empty vector |
| PoolVector.Vector.Back | threads/include/pool_vector.hpp:298-325 | `back()` is the last element, and an error on an empty vector |
| PoolVector.Vector.SetAt | threads/include/pool_vector.hpp:337-344 | writing through `operator[]` replaces exactly that element when the index is in range, and otherwise changes nothing and reports out-of-range |
| PoolVector.Vector.Reserve | threads/include/pool_vector.hpp:109-127 | `reserve(n)` keeps the contents, and the capacity becomes the larger of the old capacity and `n`; a larger buffer is fresh with value-initialised spare slots |
| PoolVector.Vector.Resize | threads/include/pool_vector.hpp:94-107 | `resize(n)` truncates to `n`, or extends with value-initialised elements to exactly `n` |
| PoolVector.Vector.PushBack | threads/include/pool_vector.hpp:346-367 | `push_back` appends and returns the new size; a full vector grows to capacity 10 from 0, and otherwise doubles |
| PoolVector.Vector.PopBack | threads/include/pool_vector.hpp:369-378 | `pop_back` drops the last element, and reports an error on an empty vector |
| PoolVector.Vector.Insert | threads/include/pool_vector.hpp:148-161 | inserting a value at index `idx` splices it in before the old element `idx` |
| PoolVector.Vector.InsertList | threads/include/pool_vector.hpp:129-182 | inserting a range or a list at `idx` splices all its values in, in order, before the old element `idx` |
| PoolVector.Vector.ShiftRight | threads/include/pool_vector.hpp:176-177 | the intended shifting loop of the inserts moves the slots `[from, size - n)` up by `n` to `[from + n, size)` and leaves every slot below `from + n` as it was |
| PoolVector.Vector.CopyInto | threads/include/pool_vector.hpp:179-181 | the copying loop of the inserts (also at lines 143-145) writes `vals` to the slots from `idx` on, in order, and leaves every other slot as it was |
| PoolVector.Vector.Erase | threads/include/pool_vector.hpp:184-197 | `erase(at)` removes exactly that element, keeps the buffer, and returns the same index |
| PoolVector.Vector.EraseRange | threads/include/pool_vector.hpp:199-206 | `erase(begin, end)` removes exactly the elements of `[begin, end)` and returns `begin` |
| PoolVector.Vector.Clear | threads/include/pool_vector.hpp:65-76 | `clear()` empties the vector, overwrites the formerly live slots with `T()`, and keeps the buffer and its capacity |
| PoolVector.Vector.Assign | threads/include/pool_vector.hpp:208-225 | assignment makes a deep copy of the right-hand side in a fresh, exactly sized buffer |
| PoolVector.StdRoundTrip | threads/include/pool_vector.hpp:40-63 | converting to a `std::vector` and constructing back gives the same contents |
| Ascending.InsertionPointBounds | threads/include/pool_set.hpp:208-248 | on an ascending sequence, every element before the insertion point is below the value and every later one is at least the value |
| Ascending.SplitIsInsertionPoint | threads/include/pool_set.hpp:208-248 | any index that separates smaller elements from the rest is the insertion point, so the binary search agrees with a linear scan |
| Ascending.AbsentSplitsAtInsertionPoint | threads/include/pool_set.hpp:208-248 | an absent value splits an ascending sequence strictly at its insertion point |
| Ascending.InsertKeepsAscending | threads/include/pool_set.hpp:101-113 | placing a value where the sequence splits around it keeps it strictly ascending |
| Ascending.RemoveKeepsAscending | threads/include/pool_set.hpp:127-135 | removing one element keeps a sequence strictly ascending |
| Ascending.RemoveSliceKeepsAscending | threads/include/pool_set.hpp:145-152 | removing a slice keeps a sequence strictly ascending |
| Ascending.ElementsOfInsert | threads/include/pool_set.hpp:101-113 | splicing a value in adds exactly that value to the elements |
| Ascending.ElementsOfAppend | threads/include/pool_set.hpp:70-81 | appending a value adds exactly that value to the elements |
| Ascending.ElementsOfRemove | threads/include/pool_set.hpp:127-143 | removing an element of an ascending sequence removes exactly its value |
| Ascending.AscendingCardinality | threads/include/pool_set.hpp:89-93 | an ascending sequence holds as many distinct values as it has elements |
| Ascending.HeadIsLeast | threads/include/pool_set.hpp:165-169 | `begin()` of an ascending sequence is its least element |
| Ascending.SameHeadSameTailElements | threads/include/pool_set.hpp:165-169 | two ascending sequences with the same values share their first element and the values of their tails |
| Ascending.AscendingIsCanonical | threads/include/pool_set.hpp:101-113 | two ascending sequences holding the same values are equal |
| PoolSet.Set.FromSeq | threads/include/pool_set.hpp:38-55 | construction from a `MultiCore::vector` or an initializer list holds exactly the source's values, duplicates merged |
| PoolSet.Set.FromStdSet | threads/include/pool_set.hpp:44-49 | construction from a `std::set` reproduces its ascending order in the backing vector |
| PoolSet.Set.Size | threads/include/pool_set.hpp:89-93 | `size()` is both the length of the contents and the number of distinct members |
| PoolSet.Set.IsEmpty | threads/include/pool_set.hpp:83-87 | `empty()` holds exactly when the set has no members |
| PoolSet.Set.ToStdSet | threads/include/pool_set.hpp:57-63 | conversion to a `std::set` yields exactly the members, as many as `size()` |
| PoolSet.Set.FindNext | threads/include/pool_set.hpp:208-248 | `find(val, next)` returns the index of a present `val`, with `next` one past it; for an absent `val` it returns `end()`, and `next` is the index where `val` belongs, with smaller elements before it and larger ones from it on |
| PoolSet.Set.Find | threads/include/pool_set.hpp:189-194 | `find(val)` returns the index of a present value and `end()` otherwise |
| PoolSet.Set.Contains | threads/include/pool_set.hpp:196-200 | `contains(val)` holds exactly for members |
| PoolSet.Set.Count | threads/include/pool_set.hpp:202-206 | `count(val)` is 1 for members and 0 otherwise |
| PoolSet.Set.Insert | threads/include/pool_set.hpp:101-113 | `insert(val)` adds `val` to the members and keeps the contents ascending; a present value leaves the contents as they were, and an absent one is spliced in at its insertion point |
| PoolSet.Set.InsertAll | threads/include/pool_set.hpp:70-81 | inserting a range adds exactly its values to the members, in any order and with duplicates merged |
| PoolSet.Set.EraseAt | threads/include/pool_set.hpp:127-135 | `erase(at)` removes exactly that element and its value |
| PoolSet.Set.Erase | threads/include/pool_set.hpp:137-143 | `erase(val)` removes `val` from the members; an absent value changes nothing, and a present one shortens the contents by one |
| PoolSet.Set.EraseRange | threads/include/pool_set.hpp:145-152 | `erase(begin, end)` removes exactly the slice and keeps the contents ascending |
| PoolSet.Set.Clear | threads/include/pool_set.hpp:95-99 | `clear()` leaves no members |
| PoolSet.Set.Assign | threads/include/pool_set.hpp:154-163 | assignment copies the right-hand side's contents |
| PoolSet.SameMembersSameContents | threads/include/pool_set.hpp:101-113 | two valid sets with the same members have identical contents, whatever order the values were inserted in |
| AsWritten.ReserveAsWritten | threads/include/pool_vector.hpp:109-127 | `reserve(n)` as written keeps the live elements. It writes out of bounds, at slot `n`, exactly when there is an old block and `n` lies above the recorded capacity but below the live size. It records the new capacity only when there was an old block |
| AsWritten.ResizeAsWritten | threads/include/pool_vector.hpp:94-107 | `resize(n)` as written either fails at slot `n`, or sets the size to `n`, keeps the elements up to the old size and zeroes only slot `n` |
| AsWritten.ShiftAsWritten | threads/include/pool_vector.hpp:140-141 | the downward shift loop on a `size_t` counter keeps the block's length, and leaves the slots above its start untouched |
| AsWritten.CopyAsWritten | threads/include/pool_vector.hpp:143-145 | the copy loop succeeds exactly when the block has room, and then places the values at `idx` and leaves every other slot as it was |
| AsWritten.InsertAsWritten | threads/include/pool_vector.hpp:148-161 | `insert(at, val)` as written, when it stays in bounds, grows the size by one and stores `val` at `idx` |
| AsWritten.InsertRangeAsWritten | threads/include/pool_vector.hpp:129-146 | `insert(at, begin, end)` as written, when it stays in bounds, grows the size by the range length and writes the range at `idx` |
| AsWritten.InsertListAsWritten | threads/include/pool_vector.hpp:163-182 | `insert(at, list)` as written, when it stays in bounds, grows the size by the list length and writes the list at `idx` |
| AsWritten.ShiftMovesWindow | threads/include/pool_vector.hpp:140-141 | when the shift starts inside the block and its counter neither wraps nor passes below `delta`, it succeeds: every slot `k` it visits receives the old slot `k - delta`, and every other slot keeps its value |
| AsWritten.InsertSplicesLive | threads/include/pool_vector.hpp:94-161 | `insert(at, val)` as written, on a buffer whose capacity matches its block, succeeds exactly when the new size stays below the capacity, and then its live elements are the old ones with `val` spliced in at `idx` |
| AsWritten.InsertListSplicesLive | threads/include/pool_vector.hpp:163-182 | `insert(at, list)` as written, with a non-empty list and a slot to spare beyond the new size, succeeds and splices the list in at `idx` |
| AsWritten.InsertListShifted | threads/include/pool_vector.hpp:163-177 | before its copy loop, `insert(at, list)` as written has moved the tail up by the list length and left the slots below `idx` untouched |
| AsWritten.ShiftedAfterResize | threads/include/pool_vector.hpp:175-177 | growing inside the capacity and then running the shift from the new last slot leaves the slots below the visited window as they were and gives each visited slot `k` the old slot `k - delta` |
| AsWritten.InsertListReachesCopy | threads/include/pool_vector.hpp:174-181 | once the shift after growing inside the capacity has succeeded, what remains of `insert(at, list)` as written is the copying loop |
| AsWritten.InsertRangeAtEndAppends | threads/include/pool_vector.hpp:129-146 | `insert(end(), begin, end)` as written appends the range whenever it stays in bounds. On a buffer whose capacity matches its block it succeeds exactly when the new size is positive and below the capacity: an empty range into an empty vector wraps the shift counter |
| AsWritten.ResizeWithinCapacity | threads/include/pool_vector.hpp:94-107 | below the recorded capacity, `resize(n)` as written only sets the size and zeroes slot `n` |
| AsWritten.EraseRangeAsWritten | threads/include/pool_vector.hpp:199-206 | `erase(begin, end)` as written leaves the live elements unchanged and returns `begin` |
| AsWritten.InsertListIntoNullOutOfBounds | threads/include/pool_vector.hpp:40-49 | constructing a vector from a list, `insert(end(), src)` on a null buffer, as written writes out of bounds at the slot whose index is the list's length, for every list including the empty one |
| AsWritten.SetFirstInsertCounterexample | threads/include/pool_set.hpp:101-113 | the first `insert(5)` into an empty set as written writes slot 1 of the one-slot block `reserve` allocates |
| AsWritten.SetSecondInsertCounterexample | threads/include/pool_set.hpp:101-113 | the second insertion, from one slot holding 5 with capacity 0, writes slot 2 of a two-slot block |
| AsWritten.InsertIntoFullOutOfBounds | threads/include/pool_vector.hpp:94-161 | `insert(at, val)` as written on a full vector writes out of bounds, one past the block `reserve` just allocated |
| AsWritten.ResizeOutOfBoundsExactly | threads/include/pool_vector.hpp:94-127 | on a buffer whose capacity matches its block, `resize(n)` as written writes out of bounds, at slot `n`, exactly when `n` reaches the capacity |
| AsWritten.ResizeLeavesStaleSlots | threads/include/pool_vector.hpp:94-107 | growing inside the capacity as written leaves the new live slots as they were, without value-initialising them |
| AsWritten.ResizeFullCounterexample | threads/include/pool_vector.hpp:94-107 | `resize(2)` on [4] in a block of two writes slot 2 |
| AsWritten.ResizeStaleCounterexample | threads/include/pool_vector.hpp:94-107 | `resize(2)` on [4] with 9 in the unused slot yields [4, 9] |
| AsWritten.ReserveFromNullKeepsCapacity | threads/include/pool_vector.hpp:109-127 | `reserve(n)` as written on a vector without a buffer allocates `n` slots but leaves `_capacity` unchanged |
| AsWritten.ReserveCounterexample | threads/include/pool_vector.hpp:109-127 | after `reserve(10)` on a new vector, the recorded capacity is still 0 |
| AsWritten.InsertRangeCounterexample | threads/include/pool_vector.hpp:129-146 | inserting [8, 9] at the front of [1, 2, 3] with the range insert as written yields [8, 9, 3, 3, 0] |
| AsWritten.InsertListCounterexample | threads/include/pool_vector.hpp:163-182 | inserting an empty list at the front of [7] as written writes slot 2^64 - 1 |
| AsWritten.EraseRangeCounterexample | threads/include/pool_vector.hpp:199-206 | `erase(begin(), begin() + 2)` as written leaves [1, 2, 3] as it was, where removing the range gives [3] |

## Left out

- The pool allocator (`alloc`, `free`) and destructors: a buffer is a Dafny `array`. Freeing is not modelled.
- The `DUPLICATE_STD_TESTS` shadow `std::vector` / `std::set` and its consistency asserts: they exist only in test builds.
- Thread safety: the containers have no synchronisation of their own.
- Pointer identity and iterator invalidation: an iterator is a direction and an index. Nothing models an iterator outliving a reallocation.
- The const and non-const iterator variants: they differ only in what may be written, so one `Iter` type covers them.
- Element types: the vector is generic with `zero` in place of `T()`, but the set is over `int` with the built-in `<`.
- `size_t` overflow of sizes and capacities: the class uses unbounded `nat`. Wrap-around is modelled where the source depends on it: the iterator difference, and the as-written shifting loops.
- PoolVector.Vector.Insert: requires `idx <= size`. The source takes an iterator into the same vector and does not check it.
- PoolVector.Vector.Erase: requires `idx < size`. The source does not check it. `erase(end())` drops the last element, and on an empty vector `_size - 1` wraps and the loop leaves the buffer; neither case is modelled.
- PoolVector.Vector.EraseRange: requires `b <= e <= size`. The source erases nothing at all (see "## Findings") and checks no bounds.
- PoolSet.Set.EraseAt: requires `pos < size`, as `Vector.Erase` does. The source passes any iterator through.
- PoolSet.Set.EraseRange: requires `b <= e <= size`, as `Vector.EraseRange` does. As written, the set's `erase(begin, end)` forwards to the vector routine, which removes nothing (see "## Findings"). The model removes the slice, as the corrected vector routine does.
- Postfix `operator++(int)` and `operator--(int)` return the iterator after the step, so `it++` evaluates to the new position, not the old one. `Next` and `Prev` model the step of both forms; the value of a postfix expression is not modelled.
- PoolVector.Vector.InsertList: requires `idx <= size`. The source takes an iterator into the same vector and does not check it. It also stands for the range insert `insert(at, begin, end)`. Both are modelled by their evidently intended behaviour (see "## Findings").
- PoolVector.Vector.Assign: requires `rhs != this`. Self-assignment in the source frees the buffer before copying from it.
- PoolSet.Set.Assign: requires distinct backing vectors for the same reason.
- PoolSet.Set.Insert: returns the index of `val`. The source returns the `void` result of `vector<T>::insert` from a function declared to return an iterator, and that function would not compile once instantiated.
- PoolSet.Set.InsertAll: also stands for `insert(list)`. The source loop there iterates from the member functions `begin`/`end` instead of the list, which would not compile once instantiated; the model inserts the list's values.
- PoolSet.Set.FromStdSet: takes the `std::set` as its ascending iteration order.
- The set derives from the vector in the source. The model holds the vector in a field and exposes only the set's own operations.
- The as-written `push_back` is not modelled separately. It inherits the `reserve` defect: starting from capacity 0 it allocates twice.
- `pool_vector.h` and `pool_set.h` (the class declarations) are not part of this model.

## Findings

| source | as written | input that shows it | evidently intended | confidence | as-written member | corrected member |
|---|---|---|---|---|---|---|
| threads/include/pool_vector.hpp:94-107 | `oldSize` is read after `_size` is set to the new size, so the loop writes only slot `n`. That slot is outside the block whenever `n` reaches the capacity, which happens on every single-value insert into a full vector (`AsWritten.InsertIntoFullOutOfBounds`). | [4] in a block of two, `resize(2)`: writes slot 2. [4] in a block of three holding 9 in slot 1, `resize(2)`: yields [4, 9]. | value-initialise the slots from the old size to `n`, exclusive | not executed | AsWritten.ResizeFullCounterexample | PoolVector.Vector.Resize |
| threads/include/pool_vector.hpp:109-127 | `_capacity` is updated only inside `if (pTmp)`, so reserving on a vector without a buffer leaves it 0 | a new vector, `reserve(10)`: buffer of 10, capacity 0 | record the new capacity whenever a buffer is allocated | not executed | AsWritten.ReserveCounterexample | PoolVector.Vector.Reserve |
| threads/include/pool_vector.hpp:129-146 | the tail is shifted by one slot, not by the range length, and the loop stops at `idx + n` | [1, 2, 3] in a block of six, insert [8, 9] at `begin()`: gives [8, 9, 3, 3, 0] | shift the tail up by `n` and write the range into the gap: [8, 9, 1, 2, 3] | not executed | AsWritten.InsertRangeCounterexample | PoolVector.Vector.InsertList |
| threads/include/pool_vector.hpp:163-182 | the `size_t` guard `i >= idx + entriesNeeded` is always true when both are 0, and `i--` wraps | [7] in a block of three, insert `{}` at `begin()`: writes slot 2^64 - 1 | leave the vector unchanged | not executed | AsWritten.InsertListCounterexample | PoolVector.Vector.InsertList |
| threads/include/pool_vector.hpp:199-206 | outside test builds the body only returns `begin`, so nothing is removed | [1, 2, 3], `erase(begin(), begin() + 2)`: stays [1, 2, 3] | remove the elements of `[begin, end)` | not executed | AsWritten.EraseRangeCounterexample | PoolVector.Vector.EraseRange |
| threads/include/pool_set.hpp:145-152 | the set's `erase(begin, end)` forwards to `vector<T>::erase(begin, end)`, which removes nothing, so the set keeps every member | the set {1, 2, 3}, `erase(begin(), begin() + 2)`: stays {1, 2, 3} | remove the elements of `[begin, end)`, leaving {3} | not executed | AsWritten.EraseRangeCounterexample | PoolSet.Set.EraseRange |
| threads/include/pool_set.hpp:101-113 | `insert(val)` of a new value calls `vector<T>::insert(at, val)`, which grows through `resize(_size + 1)`; that reserves an exact fit and then writes slot `_size + 1`, so an insertion succeeds only with two spare slots, left by earlier erasures (`AsWritten.InsertSplicesLive`) | a new set, `insert(5)`: writes slot 1 of a one-slot block; then `insert(3)`: writes slot 2 of a two-slot block | grow the set by the one value, spliced in at its insertion point | not executed | AsWritten.SetFirstInsertCounterexample | PoolSet.Set.Insert |
| threads/include/pool_vector.hpp:40-49 | the constructors run `insert(end(), src)` on a null buffer, so for a list of `n` values `resize` writes slot `n` of the `n`-slot block `reserve` allocates, or slot 0 of no block for an empty list | `vector({1, 2})`: writes slot 2; `vector({})`: writes slot 0 of a null buffer | a vector holding exactly `src` | not executed | AsWritten.InsertListIntoNullOutOfBounds | PoolVector.Vector.FromSeq |
