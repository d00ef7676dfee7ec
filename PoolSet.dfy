/** `MultiCore::set<T>` for `T = int`: a sorted, duplicate-free array held
    in a `MultiCore::vector`. Lookups are binary searches; insertions and
    removals shift the backing vector. */
module PoolSet {
  import opened Ascending
  import opened PoolVector

  class Set {
    const vec: Vector<int>

    /** The object invariant: the backing vector is valid and strictly
        ascending. */
    ghost predicate Valid()
      reads this, vec, vec.data
    {
      vec.Valid() && StrictlyAscending(vec.Contents())
    }

    /** The elements in iteration (ascending) order. */
    ghost function Contents(): seq<int>
      reads this, vec, vec.data
      requires vec.Valid()
    {
      vec.Contents()
    }

    /** The abstract value: the mathematical set held. */
    ghost function Members(): set<int>
      reads this, vec, vec.data
      requires vec.Valid()
    {
      Elements(vec.Contents())
    }

    /** The default constructor: the empty set. */
    constructor ()
      ensures Valid() && Contents() == [] && fresh(vec) && fresh(vec.data)
    {
      vec := new Vector<int>(0);
    }

    /** Construction from a `MultiCore::vector` or an initializer list:
        every element of the source passes through `insert`. */
    constructor FromSeq(src: seq<int>)
      ensures Valid() && Members() == Elements(src) && fresh(vec) && fresh(vec.data)
    {
      vec := new Vector<int>(0);
      new;
      InsertAll(src);
    }

    /** Construction from a `std::set`, given by its iteration order,
        which is ascending: every element passes through `insert`, so the
        backing array ends up a copy of that order. */
    constructor FromStdSet(src: seq<int>)
      requires StrictlyAscending(src)
      ensures Valid() && Contents() == src && Members() == Elements(src)
      ensures fresh(vec) && fresh(vec.data)
    {
      vec := new Vector<int>(0);
      new;
      InsertAll(src);
      AscendingIsCanonical(Contents(), src);
    }

    /** `size()`: the number of elements, which, as no value is stored
        twice, is the cardinality of the set. */
    function Size(): (r: nat)
      reads this, vec, vec.data
      requires Valid()
      ensures r == |Contents()| && r == |Members()|
    {
      AscendingCardinality(vec.Contents());
      vec.size
    }

    /** `empty()`. */
    function IsEmpty(): (r: bool)
      reads this, vec, vec.data
      requires Valid()
      ensures r <==> Members() == {}
    {
      assert vec.size > 0 ==> vec.Contents()[0] in Members();
      vec.size == 0
    }

    /** `operator std::set<T>()`: the same values, none lost and none
        merged. */
    method ToStdSet() returns (r: set<int>)
      requires Valid()
      ensures r == Members() && |r| == Size()
    {
      r := Elements(vec.data[..vec.size]);
    }

    /** `find(val, next)`: binary search over the half-open bounds
        `[min, max)`. Returns the index of `val`, or `size` (`end()`) when
        it is absent; `next` is the index after a found element, or the
        index at which an absent `val` belongs. */
    method FindNext(val: int) returns (it: nat, next: nat)
      requires Valid()
      ensures val in Contents() ==> it < |Contents()| && Contents()[it] == val && next == it + 1
      ensures val in Contents() ==> it == InsertionPoint(Contents(), val)
      ensures val !in Contents() ==> it == |Contents()| && SplitsAt(Contents(), next, val)
      ensures val !in Contents() ==> next == InsertionPoint(Contents(), val)
    {
      ghost var s := Contents();
      var n := vec.size;
      next := n;
      var min, max := 0, n;
      var idx := (min + max) / 2;
      while idx < n && min != max
        invariant 0 <= min <= max <= n && idx == (min + max) / 2
        invariant forall k :: 0 <= k < min ==> s[k] < val
        invariant min > 0 ==> min < max && s[min] < val
        invariant forall k :: max <= k < n ==> s[k] > val
        invariant next == n
        decreases max - min
      {
        var cur := vec.data[idx];
        if val < cur {
          if max == idx {
            // the source asserts this cannot happen: idx < max while min < max
            assert false;
          }
          max := idx;
        } else if cur < val {
          if min == idx {
            next := if idx < n - 1 then idx + 1 else n;
            it := n;
            SplitIsInsertionPoint(s, next, val);
            return;
          }
          min := idx;
        } else {
          next := if idx < n - 1 then idx + 1 else n;
          it := idx;
          SplitIsInsertionPoint(s, idx, val);
          return;
        }
        idx := (min + max) / 2;
      }
      if idx < n {
        next := idx;
      }
      it := n;
      SplitIsInsertionPoint(s, next, val);
    }

    /** `find(val)`: the index of `val`, or `size` (`end()`) when absent. */
    method Find(val: int) returns (it: nat)
      requires Valid()
      ensures val in Contents() ==> it < |Contents()| && Contents()[it] == val
      ensures val !in Contents() ==> it == |Contents()|
    {
      var next;
      it, next := FindNext(val);
    }

    /** `contains(val)`. */
    method Contains(val: int) returns (b: bool)
      requires Valid()
      ensures b <==> val in Members()
    {
      var it := Find(val);
      b := it != vec.size;
    }

    /** `count(val)`: 1 for a member and 0 otherwise. */
    method Count(val: int) returns (c: nat)
      requires Valid()
      ensures c == if val in Members() then 1 else 0
    {
      var it := Find(val);
      c := if it == vec.size then 0 else 1;
    }

    /** `insert(val)`: place an absent `val` at its insertion point; a
        present one leaves the set as it is. Returns the index of `val`. */
    method Insert(val: int) returns (pos: nat)
      requires Valid()
      modifies vec, vec.data
      ensures Valid() && (vec.data == old(vec.data) || fresh(vec.data))
      ensures Members() == old(Members()) + {val}
      ensures pos < |Contents()| && Contents()[pos] == val
      ensures val in old(Contents()) ==> Contents() == old(Contents())
      ensures val !in old(Contents()) ==>
        pos == InsertionPoint(old(Contents()), val) &&
        Contents() == old(Contents())[..pos] + [val] + old(Contents())[pos..]
    {
      ghost var s := Contents();
      var it, next := FindNext(val);
      if it == vec.size {
        InsertKeepsAscending(s, next, val);
        ElementsOfInsert(s, next, val);
        vec.Insert(next, val);
        pos := next;
      } else {
        pos := it;
      }
    }

    /** `insert(begin, end)` and `insert(list)`: insert each value in turn;
        input order does not matter and duplicates collapse. */
    method InsertAll(vals: seq<int>)
      requires Valid()
      modifies vec, vec.data
      ensures Valid() && (vec.data == old(vec.data) || fresh(vec.data))
      ensures Members() == old(Members()) + Elements(vals)
    {
      for i := 0 to |vals|
        invariant Valid() && (vec.data == old(vec.data) || fresh(vec.data))
        invariant Members() == old(Members()) + Elements(vals[..i])
      {
        assert vals[..i + 1] == vals[..i] + [vals[i]];
        ElementsOfAppend(vals[..i], vals[i]);
        var pos := Insert(vals[i]);
      }
      assert vals[..|vals|] == vals;
    }

    /** `erase(at)`: remove the element at index `pos`. */
    method EraseAt(pos: nat)
      requires Valid() && pos < |Contents()|
      modifies vec, vec.data
      ensures Valid() && vec.data == old(vec.data)
      ensures Contents() == old(Contents())[..pos] + old(Contents())[pos + 1..]
      ensures Members() == old(Members()) - {old(Contents())[pos]}
    {
      RemoveKeepsAscending(Contents(), pos);
      ElementsOfRemove(Contents(), pos);
      var it := vec.Erase(pos);
    }

    /** `erase(val)`: remove `val` if present; otherwise nothing changes. */
    method Erase(val: int)
      requires Valid()
      modifies vec, vec.data
      ensures Valid() && vec.data == old(vec.data)
      ensures Members() == old(Members()) - {val}
      ensures val !in old(Contents()) ==> Contents() == old(Contents())
      ensures val in old(Contents()) ==> |Contents()| == |old(Contents())| - 1
    {
      var it := Find(val);
      if it != vec.size {
        EraseAt(it);
      }
    }

    /** `erase(begin, end)`: remove the elements at indices `[b, e)`. */
    method EraseRange(b: nat, e: nat)
      requires Valid() && b <= e <= |Contents()|
      modifies vec, vec.data
      ensures Valid() && vec.data == old(vec.data)
      ensures Contents() == old(Contents())[..b] + old(Contents())[e..]
    {
      RemoveSliceKeepsAscending(Contents(), b, e);
      var it := vec.EraseRange(b, e);
    }

    /** `clear()`. */
    method Clear()
      requires Valid()
      modifies vec, vec.data
      ensures Valid() && Contents() == [] && Members() == {}
    {
      vec.Clear();
    }

    /** `operator=(rhs)`: a deep copy of `rhs`. */
    method Assign(rhs: Set)
      requires Valid() && rhs.Valid() && rhs.vec != vec
      modifies vec
      ensures Valid() && Contents() == rhs.Contents()
      ensures fresh(vec.data)
    {
      vec.Assign(rhs.vec);
    }
  }

  /** Two sets with the same members have the same elements in the same
      order: the backing array is a canonical representation, whatever
      order the values were inserted in. */
  lemma SameMembersSameContents(a: Set, b: Set)
    requires a.Valid() && b.Valid() && a.Members() == b.Members()
    ensures a.Contents() == b.Contents()
  {
    AscendingIsCanonical(a.Contents(), b.Contents());
  }

  /** Inserting 5, 3, 8, 3, 1 into an empty set yields [1, 3, 5, 8];
      `find(3)` is index 1, and `find(4, next)` reports absence with the
      insertion point 2, the position of 5. */
  method InsertionScenario()
  {
    var s := new Set();
    s.InsertAll([5, 3, 8, 3, 1]);
    assert Elements([5, 3, 8, 3, 1]) == {1, 3, 5, 8} by {
      assert [5, 3, 8, 3, 1][4] == 1;
    }
    assert StrictlyAscending([1, 3, 5, 8]);
    assert Elements([1, 3, 5, 8]) == {1, 3, 5, 8};
    AscendingIsCanonical(s.Contents(), [1, 3, 5, 8]);
    assert s.Size() == 4;
    var three := s.Find(3);
    assert three == 1;
    var it, next := s.FindNext(4);
    assert it == 4 && next == 2;
  }
}
