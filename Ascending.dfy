/** Facts about strictly ascending integer sequences: the representation
    invariant of the sorted set, and the index at which a value belongs. */
module Ascending {

  /** Strictly ascending: every element is smaller than every later one,
      which also makes the elements pairwise distinct. */
  ghost predicate StrictlyAscending(s: seq<int>) {
    forall i, j :: 0 <= i < j < |s| ==> s[i] < s[j]
  }

  /** The values held by a sequence. */
  function Elements(s: seq<int>): set<int> {
    set x | x in s
  }

  /** Reference definition of the insertion point, by a linear scan: the
      number of leading elements smaller than `v`. */
  function InsertionPoint(s: seq<int>, v: int): (p: nat)
    ensures p <= |s|
  {
    if s == [] || s[0] >= v then 0 else 1 + InsertionPoint(s[1..], v)
  }

  /** What separates a sequence at `p` around `v`: everything before `p` is
      below `v` and everything from `p` on is above it. */
  ghost predicate SplitsAt(s: seq<int>, p: int, v: int) {
    0 <= p <= |s| &&
    (forall k :: 0 <= k < p ==> s[k] < v) &&
    (forall k :: p <= k < |s| ==> s[k] > v)
  }

  /** On an ascending sequence every leading element up to the insertion
      point is below `v` and every later one is at least `v`. */
  lemma {:induction false} InsertionPointBounds(s: seq<int>, v: int)
    requires StrictlyAscending(s)
    ensures forall k :: 0 <= k < InsertionPoint(s, v) ==> s[k] < v
    ensures forall k :: InsertionPoint(s, v) <= k < |s| ==> s[k] >= v
  {
    if s != [] && s[0] < v {
      InsertionPointBounds(s[1..], v);
      forall k | 0 <= k < InsertionPoint(s, v) ensures s[k] < v {
        if k > 0 { assert s[k] == s[1..][k - 1]; }
      }
      forall k | InsertionPoint(s, v) <= k < |s| ensures s[k] >= v {
        assert s[k] == s[1..][k - 1];
      }
    }
  }

  /** Any index at which `s` splits around `v` is the insertion point: the
      position the binary search reports agrees with the linear scan. */
  lemma {:induction false} SplitIsInsertionPoint(s: seq<int>, p: int, v: int)
    requires 0 <= p <= |s| && forall k :: 0 <= k < p ==> s[k] < v
    requires forall k :: p <= k < |s| ==> s[k] >= v
    ensures p == InsertionPoint(s, v)
  {
    if p > 0 {
      assert s[0] < v;
      forall k | 0 <= k < p - 1 ensures s[1..][k] < v {
        assert s[1..][k] == s[k + 1];
      }
      forall k | p - 1 <= k < |s| - 1 ensures s[1..][k] >= v {
        assert s[1..][k] == s[k + 1];
      }
      SplitIsInsertionPoint(s[1..], p - 1, v);
    } else if s != [] {
      assert s[0] >= v;
    }
  }

  /** A value absent from an ascending sequence splits it exactly at its
      insertion point. */
  lemma AbsentSplitsAtInsertionPoint(s: seq<int>, v: int)
    requires StrictlyAscending(s) && v !in s
    ensures SplitsAt(s, InsertionPoint(s, v), v)
  {
    InsertionPointBounds(s, v);
    forall k | InsertionPoint(s, v) <= k < |s| ensures s[k] > v {
      assert s[k] != v;
    }
  }

  /** Placing `v` where `s` splits around it keeps the sequence ascending. */
  lemma InsertKeepsAscending(s: seq<int>, p: int, v: int)
    requires StrictlyAscending(s) && SplitsAt(s, p, v)
    ensures StrictlyAscending(s[..p] + [v] + s[p..])
  {
    var t := s[..p] + [v] + s[p..];
    assert |t| == |s| + 1;
    forall k | 0 <= k < |t|
      ensures t[k] == (if k < p then s[k] else if k == p then v else s[k - 1])
    {
    }
  }

  /** Removing the element at `i` keeps an ascending sequence ascending. */
  lemma RemoveKeepsAscending(s: seq<int>, i: int)
    requires StrictlyAscending(s) && 0 <= i < |s|
    ensures StrictlyAscending(s[..i] + s[i + 1..])
  {
    var t := s[..i] + s[i + 1..];
    forall k | 0 <= k < |t| ensures t[k] == (if k < i then s[k] else s[k + 1]) {
    }
  }

  /** Removing the slice `[b, e)` keeps an ascending sequence ascending. */
  lemma RemoveSliceKeepsAscending(s: seq<int>, b: int, e: int)
    requires StrictlyAscending(s) && 0 <= b <= e <= |s|
    ensures StrictlyAscending(s[..b] + s[e..])
  {
    var t := s[..b] + s[e..];
    forall k | 0 <= k < |t| ensures t[k] == (if k < b then s[k] else s[k + e - b]) {
    }
  }

  /** Inserting a value adds exactly that value to the elements. */
  lemma ElementsOfInsert(s: seq<int>, p: int, v: int)
    requires 0 <= p <= |s|
    ensures Elements(s[..p] + [v] + s[p..]) == Elements(s) + {v}
  {
    var t := s[..p] + [v] + s[p..];
    assert s == s[..p] + s[p..];
    forall x | x in Elements(s) ensures x in Elements(t) {
      var k :| 0 <= k < |s| && s[k] == x;
      if k < p { assert t[k] == x; } else { assert t[k + 1] == x; }
    }
    assert t[p] == v;
  }

  /** Appending a value adds exactly that value to the elements. */
  lemma ElementsOfAppend(s: seq<int>, x: int)
    ensures Elements(s + [x]) == Elements(s) + {x}
  {
    assert (s + [x])[|s|] == x;
    forall y | y in Elements(s) ensures y in Elements(s + [x]) {
      var k :| 0 <= k < |s| && s[k] == y;
      assert (s + [x])[k] == y;
    }
  }

  /** In an ascending sequence, removing the element at `i` removes exactly
      its value from the elements (it occurs nowhere else). */
  lemma ElementsOfRemove(s: seq<int>, i: int)
    requires StrictlyAscending(s) && 0 <= i < |s|
    ensures Elements(s[..i] + s[i + 1..]) == Elements(s) - {s[i]}
  {
    var t := s[..i] + s[i + 1..];
    forall x | x in Elements(s) - {s[i]} ensures x in Elements(t) {
      var k :| 0 <= k < |s| && s[k] == x;
      if k < i { assert t[k] == x; } else { assert t[k - 1] == x; }
    }
    forall x | x in Elements(t) ensures x in Elements(s) - {s[i]} {
      var k :| 0 <= k < |t| && t[k] == x;
      if k < i { assert x == s[k]; } else { assert x == s[k + 1]; }
    }
  }

  /** An ascending sequence holds as many distinct values as it has
      elements: nothing is counted twice. */
  lemma {:induction false} AscendingCardinality(s: seq<int>)
    requires StrictlyAscending(s)
    ensures |Elements(s)| == |s|
  {
    if s != [] {
      var rest := s[1..];
      assert StrictlyAscending(rest);
      AscendingCardinality(rest);
      assert s == [s[0]] + rest;
      assert Elements(s) == Elements(rest) + {s[0]};
      forall k | 0 <= k < |rest| ensures rest[k] != s[0] {
        assert rest[k] == s[k + 1];
      }
    }
  }

  /** The head of an ascending sequence is its least element. */
  lemma HeadIsLeast(s: seq<int>, x: int)
    requires StrictlyAscending(s) && x in Elements(s)
    ensures s[0] <= x
  {
    var k :| 0 <= k < |s| && s[k] == x;
  }

  /** Two non-empty ascending sequences with the same elements share their
      head, and their tails again hold the same elements. */
  lemma SameHeadSameTailElements(a: seq<int>, b: seq<int>)
    requires StrictlyAscending(a) && StrictlyAscending(b)
    requires Elements(a) == Elements(b) && a != [] && b != []
    ensures a[0] == b[0] && Elements(a[1..]) == Elements(b[1..])
  {
    HeadIsLeast(a, b[0]);
    HeadIsLeast(b, a[0]);
    ElementsOfRemove(a, 0);
    ElementsOfRemove(b, 0);
    assert a[..0] + a[1..] == a[1..] && b[..0] + b[1..] == b[1..];
  }

  /** An ascending sequence is determined by its elements: two ascending
      sequences holding the same values are equal. */
  lemma {:induction false} AscendingIsCanonical(a: seq<int>, b: seq<int>)
    requires StrictlyAscending(a) && StrictlyAscending(b)
    requires Elements(a) == Elements(b)
    ensures a == b
  {
    if a == [] || b == [] {
      AscendingCardinality(a);
      AscendingCardinality(b);
    } else {
      SameHeadSameTailElements(a, b);
      AscendingIsCanonical(a[1..], b[1..]);
      assert a == [a[0]] + a[1..] && b == [b[0]] + b[1..];
    }
  }
}
