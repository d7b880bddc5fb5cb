/** List operations the program uses on `MutableList`s and `List`s:
    `removeAt`, `add(index, x)`, `indexOf`, `filter` and the stable `sortedBy`. */
module Seqs {

  /** `list.removeAt(i)`, as the list left behind. */
  function RemoveAt<T(==)>(s: seq<T>, i: int): (r: seq<T>)
    requires 0 <= i < |s|
    ensures |r| == |s| - 1
    ensures forall k :: 0 <= k < i ==> r[k] == s[k]
    ensures forall k :: i <= k < |r| ==> r[k] == s[k + 1]
  {
    s[..i] + s[i + 1..]
  }

  /** `list.add(i, x)`, as the new list. */
  function InsertAt<T(==)>(s: seq<T>, i: int, x: T): (r: seq<T>)
    requires 0 <= i <= |s|
    ensures |r| == |s| + 1 && r[i] == x
    ensures forall k :: 0 <= k < i ==> r[k] == s[k]
    ensures forall k :: i < k < |r| ==> r[k] == s[k - 1]
  {
    s[..i] + [x] + s[i..]
  }

  lemma RemoveAtMultiset<T>(s: seq<T>, i: int)
    requires 0 <= i < |s|
    ensures multiset(RemoveAt(s, i)) + multiset{s[i]} == multiset(s)
  {
    assert s == s[..i] + [s[i]] + s[i + 1..];
  }

  lemma InsertAtMultiset<T>(s: seq<T>, i: int, x: T)
    requires 0 <= i <= |s|
    ensures multiset(InsertAt(s, i, x)) == multiset(s) + multiset{x}
  {
    assert s == s[..i] + s[i..];
  }

  lemma {:induction false} InsertThenRemove<T>(s: seq<T>, i: int, x: T)
    requires 0 <= i <= |s|
    ensures RemoveAt(InsertAt(s, i, x), i) == s
  {
    var r := RemoveAt(InsertAt(s, i, x), i);
    assert |r| == |s|;
    forall k | 0 <= k < |s| ensures r[k] == s[k] {}
  }

  /** Take the element at `from` out and put it back at `to`: the
      `removeAt(from)` then `add(to, item)` sequence both view models use. */
  function Move<T(==)>(s: seq<T>, from: int, to: int): (r: seq<T>)
    requires 0 <= from < |s| && 0 <= to < |s|
  {
    InsertAt(RemoveAt(s, from), to, s[from])
  }

  /** A move lands the element at its new index, keeps every element, and leaves
      the other elements in their old relative order. */
  lemma {:induction false} MoveSpec<T>(s: seq<T>, from: int, to: int)
    requires 0 <= from < |s| && 0 <= to < |s|
    ensures |Move(s, from, to)| == |s|
    ensures Move(s, from, to)[to] == s[from]
    ensures multiset(Move(s, from, to)) == multiset(s)
    ensures RemoveAt(Move(s, from, to), to) == RemoveAt(s, from)
  {
    RemoveAtMultiset(s, from);
    InsertAtMultiset(RemoveAt(s, from), to, s[from]);
    InsertThenRemove(RemoveAt(s, from), to, s[from]);
  }

  /** Where the element at index `k` of `Move(s, from, to)` comes from in `s`. */
  function MoveSource(from: int, to: int, k: int): int
  {
    if k == to then from
    else
      var r := if k < to then k else k - 1;
      if r < from then r else r + 1
  }

  /** Every position of a moved list takes its element from a distinct position of the original. */
  lemma MoveSourceSpec<T>(s: seq<T>, from: int, to: int)
    requires 0 <= from < |s| && 0 <= to < |s|
    ensures forall k :: 0 <= k < |s| ==>
              0 <= MoveSource(from, to, k) < |s| && Move(s, from, to)[k] == s[MoveSource(from, to, k)]
    ensures forall k1, k2 :: 0 <= k1 < k2 < |s| ==> MoveSource(from, to, k1) != MoveSource(from, to, k2)
    ensures forall k1, k2 :: 0 <= k1 < k2 < |s| && k1 != to && k2 != to ==>
              MoveSource(from, to, k1) < MoveSource(from, to, k2)
  {
  }

  /** Where the element at index `i` of `s` lands in `Move(s, from, to)`. */
  function MoveTarget(from: int, to: int, i: int): int
  {
    if i == from then to
    else
      var r := if i < from then i else i - 1;
      if r < to then r else r + 1
  }

  /** Every element of the original lands at its target, and the elements
      other than the moved one keep their order. */
  lemma MoveTargetSpec<T>(s: seq<T>, from: int, to: int)
    requires 0 <= from < |s| && 0 <= to < |s|
    ensures forall i :: 0 <= i < |s| ==>
              0 <= MoveTarget(from, to, i) < |s| && Move(s, from, to)[MoveTarget(from, to, i)] == s[i]
    ensures forall i, j :: 0 <= i < j < |s| && i != from && j != from ==>
              MoveTarget(from, to, i) < MoveTarget(from, to, j)
  {
    forall i | 0 <= i < |s|
      ensures 0 <= MoveTarget(from, to, i) < |s| && Move(s, from, to)[MoveTarget(from, to, i)] == s[i]
    {
      MoveTargetAt(s, from, to, i);
    }
    forall i, j | 0 <= i < j < |s| && i != from && j != from
      ensures MoveTarget(from, to, i) < MoveTarget(from, to, j)
    {
      MoveTargetOrder(from, to, i, j);
    }
  }

  lemma MoveTargetAt<T>(s: seq<T>, from: int, to: int, i: int)
    requires 0 <= from < |s| && 0 <= to < |s| && 0 <= i < |s|
    ensures 0 <= MoveTarget(from, to, i) < |s| && Move(s, from, to)[MoveTarget(from, to, i)] == s[i]
  {
    var rest := RemoveAt(s, from);
    if i != from {
      var r := if i < from then i else i - 1;
      assert rest[r] == s[i];
    }
  }

  /** Two elements other than the moved one land in their old order. */
  lemma MoveTargetOrder(from: int, to: int, i: int, j: int)
    requires i != from && j != from
    ensures MoveTarget(from, to, i) < MoveTarget(from, to, j) <==> i < j
  {
  }

  /** No two elements share a key. */
  predicate UniqueKeys<T, K(==)>(s: seq<T>, key: T -> K)
  {
    forall i, j :: 0 <= i < j < |s| ==> key(s[i]) != key(s[j])
  }

  lemma MoveUniqueKeys<T, K>(s: seq<T>, from: int, to: int, key: T -> K)
    requires 0 <= from < |s| && 0 <= to < |s|
    requires UniqueKeys(s, key)
    ensures UniqueKeys(Move(s, from, to), key)
  {
    MoveSourceSpec(s, from, to);
    var m := Move(s, from, to);
    forall i, j | 0 <= i < j < |m| ensures key(m[i]) != key(m[j]) {
      var a, b := MoveSource(from, to, i), MoveSource(from, to, j);
      if a > b {
        assert key(s[b]) != key(s[a]);
      }
    }
  }

  lemma MoveDupFree<T>(s: seq<T>, from: int, to: int)
    requires 0 <= from < |s| && 0 <= to < |s|
    requires DupFree(s)
    ensures DupFree(Move(s, from, to))
  {
    MoveSourceSpec(s, from, to);
    var m := Move(s, from, to);
    forall i, j | 0 <= i < j < |m| ensures m[i] != m[j] {
      var a, b := MoveSource(from, to, i), MoveSource(from, to, j);
      if a > b {
        assert s[b] != s[a];
      }
    }
  }

  /** A permutation has the same elements, so `containsAll` holds both ways. */
  lemma SameMultisetSameSet<T>(a: seq<T>, b: seq<T>)
    requires multiset(a) == multiset(b)
    ensures forall x :: x in a <==> x in b
  {
    forall x ensures x in a <==> x in b {
      assert x in a <==> x in multiset(a);
      assert x in b <==> x in multiset(b);
    }
  }

  /** `list.reversed()` */
  function Reverse<T(==)>(s: seq<T>): (r: seq<T>)
    ensures |r| == |s|
    ensures forall k :: 0 <= k < |s| ==> r[k] == s[|s| - 1 - k]
  {
    if s == [] then [] else Reverse(s[1..]) + [s[0]]
  }

  lemma ReverseReverse<T>(s: seq<T>)
    ensures Reverse(Reverse(s)) == s
  {
  }

  lemma {:induction false} ReverseMultiset<T>(s: seq<T>)
    ensures multiset(Reverse(s)) == multiset(s)
  {
    if s != [] {
      ReverseMultiset(s[1..]);
      assert s == [s[0]] + s[1..];
    }
  }

  /** `list.indexOf(x)`: the first index of `x`, or -1. */
  function IndexOf<T(==)>(s: seq<T>, x: T): (k: int)
    ensures -1 <= k < |s|
    ensures k == -1 <==> x !in s
    ensures k >= 0 ==> s[k] == x && forall j :: 0 <= j < k ==> s[j] != x
  {
    if s == [] then -1
    else if s[0] == x then 0
    else
      var k := IndexOf(s[1..], x);
      if k == -1 then -1 else k + 1
  }

  /** No element occurs twice. */
  predicate DupFree<T(==)>(s: seq<T>)
  {
    forall i, j :: 0 <= i < j < |s| ==> s[i] != s[j]
  }

  /** In a duplicate-free list the index of the element at `i` is `i`. */
  lemma IndexOfDupFree<T>(s: seq<T>, i: int)
    requires DupFree(s) && 0 <= i < |s|
    ensures IndexOf(s, s[i]) == i
  {
  }

  lemma {:induction false} DupFreeCard<T>(s: seq<T>)
    requires DupFree(s)
    ensures |set x | x in s| == |s|
  {
    if s != [] {
      var t := s[1..];
      assert DupFree(t);
      DupFreeCard(t);
      assert (set x | x in s) == (set x | x in t) + {s[0]};
      assert s[0] !in t;
    }
  }

  /** Two duplicate-free lists with the same elements have the same length. */
  lemma SameSetSameLength<T>(a: seq<T>, b: seq<T>)
    requires DupFree(a) && DupFree(b)
    requires forall x :: x in a <==> x in b
    ensures |a| == |b|
  {
    DupFreeCard(a);
    DupFreeCard(b);
    assert (set x | x in a) == (set x | x in b);
  }

  /** The elements of `s` whose key is `k`, in order. */
  function WithKey<T(==)>(s: seq<T>, key: T -> int, k: int): (r: seq<T>)
  {
    if s == [] then []
    else if key(s[0]) == k then [s[0]] + WithKey(s[1..], key, k)
    else WithKey(s[1..], key, k)
  }

  /** Keys never decrease along the list. */
  predicate SortedBy<T(==)>(s: seq<T>, key: T -> int)
  {
    forall i, j :: 0 <= i < j < |s| ==> key(s[i]) <= key(s[j])
  }

  /** Inserts `x` before the first element whose key is not smaller. */
  function InsertSorted<T(==)>(x: T, t: seq<T>, key: T -> int): (r: seq<T>)
    ensures |r| == |t| + 1
    ensures multiset(r) == multiset(t) + multiset{x}
    ensures forall i :: 0 <= i < |r| ==> r[i] == x || r[i] in t
  {
    if t == [] then [x]
    else if key(x) <= key(t[0]) then [x] + t
    else
      assert t == [t[0]] + t[1..];
      [t[0]] + InsertSorted(x, t[1..], key)
  }

  /** `list.sortedBy(key)`: a stable insertion sort. */
  function SortBy<T(==)>(s: seq<T>, key: T -> int): (r: seq<T>)
    ensures |r| == |s|
    ensures multiset(r) == multiset(s)
  {
    if s == [] then []
    else
      assert s == [s[0]] + s[1..];
      InsertSorted(s[0], SortBy(s[1..], key), key)
  }

  lemma {:induction false} InsertSortedSorted<T>(x: T, t: seq<T>, key: T -> int)
    requires SortedBy(t, key)
    ensures SortedBy(InsertSorted(x, t, key), key)
  {
    if t != [] && key(x) > key(t[0]) {
      var tail := t[1..];
      InsertSortedSorted(x, tail, key);
      var r := InsertSorted(x, t, key);
      var rest := InsertSorted(x, tail, key);
      assert r == [t[0]] + rest;
      forall k | 0 <= k < |rest| ensures key(t[0]) <= key(rest[k]) {
        if rest[k] != x {
          var m :| 0 <= m < |tail| && tail[m] == rest[k];
          assert t[m + 1] == rest[k];
        }
      }
      forall i, j | 0 <= i < j < |r| ensures key(r[i]) <= key(r[j]) {
        assert r[j] == rest[j - 1];
        if i > 0 {
          assert r[i] == rest[i - 1];
        }
      }
    }
  }

  lemma {:induction false} InsertSortedUniqueKeys<T, K>(x: T, t: seq<T>, sortKey: T -> int, key: T -> K)
    requires UniqueKeys(t, key)
    requires forall i :: 0 <= i < |t| ==> key(t[i]) != key(x)
    ensures UniqueKeys(InsertSorted(x, t, sortKey), key)
  {
    if t != [] && sortKey(x) > sortKey(t[0]) {
      InsertSortedUniqueKeys(x, t[1..], sortKey, key);
      var rest := InsertSorted(x, t[1..], sortKey);
      forall j | 0 <= j < |rest| ensures key(rest[j]) != key(t[0]) {
        if rest[j] != x {
          var m :| 0 <= m < |t[1..]| && t[1..][m] == rest[j];
          assert t[m + 1] == rest[j];
        }
      }
    }
  }

  /** Sorting keeps keys unique: it only rearranges the elements. */
  lemma {:induction false} SortByUniqueKeys<T, K>(s: seq<T>, sortKey: T -> int, key: T -> K)
    requires UniqueKeys(s, key)
    ensures UniqueKeys(SortBy(s, sortKey), key)
  {
    if s != [] {
      SortByUniqueKeys(s[1..], sortKey, key);
      var t := SortBy(s[1..], sortKey);
      forall i | 0 <= i < |t| ensures key(t[i]) != key(s[0]) {
        assert t[i] in multiset(s[1..]);
        var m :| 0 <= m < |s[1..]| && s[1..][m] == t[i];
        assert s[m + 1] == t[i];
      }
      InsertSortedUniqueKeys(s[0], t, sortKey, key);
    }
  }

  /** The sort's result is ordered by key. */
  lemma {:induction false} SortBySorted<T>(s: seq<T>, key: T -> int)
    ensures SortedBy(SortBy(s, key), key)
  {
    if s != [] {
      SortBySorted(s[1..], key);
      InsertSortedSorted(s[0], SortBy(s[1..], key), key);
    }
  }

  lemma {:induction false} InsertSortedWithKey<T>(x: T, t: seq<T>, key: T -> int, k: int)
    requires SortedBy(t, key)
    ensures WithKey(InsertSorted(x, t, key), key, k)
         == if key(x) == k then [x] + WithKey(t, key, k) else WithKey(t, key, k)
  {
    if t == [] {
    } else if key(x) <= key(t[0]) {
      assert InsertSorted(x, t, key) == [x] + t;
    } else {
      assert SortedBy(t[1..], key);
      InsertSortedWithKey(x, t[1..], key, k);
      assert InsertSorted(x, t, key) == [t[0]] + InsertSorted(x, t[1..], key);
      if key(x) == k {
        // t[0] has a key smaller than k, so it is not among the key-k elements
        assert key(t[0]) != k;
      }
    }
  }

  /** The sort is stable: the elements sharing a key keep their input order. */
  lemma {:induction false} SortByStable<T>(s: seq<T>, key: T -> int, k: int)
    ensures WithKey(SortBy(s, key), key, k) == WithKey(s, key, k)
  {
    if s != [] {
      SortByStable(s[1..], key, k);
      SortBySorted(s[1..], key);
      InsertSortedWithKey(s[0], SortBy(s[1..], key), key, k);
    }
  }

  /** `list.filter(p)` */
  function Filter<T(==)>(s: seq<T>, p: T -> bool): (r: seq<T>)
    ensures |r| <= |s|
    ensures forall i :: 0 <= i < |r| ==> r[i] in s && p(r[i])
  {
    if s == [] then []
    else if p(s[0]) then [s[0]] + Filter(s[1..], p)
    else Filter(s[1..], p)
  }

  /** Every element that passes is kept. */
  lemma {:induction false} FilterKeeps<T>(s: seq<T>, p: T -> bool, i: int)
    requires 0 <= i < |s| && p(s[i])
    ensures s[i] in Filter(s, p)
  {
    if i > 0 {
      FilterKeeps(s[1..], p, i - 1);
    }
  }

  lemma {:induction false} FilterAppend<T>(a: seq<T>, b: seq<T>, p: T -> bool)
    ensures Filter(a + b, p) == Filter(a, p) + Filter(b, p)
  {
    if a != [] {
      assert (a + b)[0] == a[0];
      assert (a + b)[1..] == a[1..] + b;
      FilterAppend(a[1..], b, p);
      if p(a[0]) {
        assert Filter(a + b, p) == [a[0]] + Filter(a[1..] + b, p);
        assert Filter(a, p) == [a[0]] + Filter(a[1..], p);
      } else {
        assert Filter(a + b, p) == Filter(a[1..] + b, p);
      }
    } else {
      assert a + b == b;
    }
  }

  /** Everything passes: the filter keeps the whole list. */
  lemma {:induction false} FilterAll<T>(s: seq<T>, p: T -> bool)
    requires forall i :: 0 <= i < |s| ==> p(s[i])
    ensures Filter(s, p) == s
  {
    if s != [] {
      FilterAll(s[1..], p);
    }
  }

  /** A strictly increasing list climbs by at least one per step. */
  lemma {:induction false} StrictGap(s: seq<int>, i: int, j: int)
    requires forall a, b :: 0 <= a < b < |s| ==> s[a] < s[b]
    requires 0 <= i <= j < |s|
    ensures s[j] >= s[i] + (j - i)
    decreases j - i
  {
    if i < j {
      StrictGap(s, i + 1, j);
    }
  }

  /** A strictly increasing list of `|s|` values in `[0, |s|)` is `0, 1, …`. */
  lemma StrictlyIncreasingIdentity(s: seq<int>)
    requires forall a, b :: 0 <= a < b < |s| ==> s[a] < s[b]
    requires forall k :: 0 <= k < |s| ==> 0 <= s[k] < |s|
    ensures forall k :: 0 <= k < |s| ==> s[k] == k
  {
    forall k | 0 <= k < |s| ensures s[k] == k {
      StrictGap(s, 0, k);
      StrictGap(s, k, |s| - 1);
    }
  }

  /** Nothing passes: the filter is empty. */
  lemma {:induction false} FilterNone<T>(s: seq<T>, p: T -> bool)
    requires forall i :: 0 <= i < |s| ==> !p(s[i])
    ensures Filter(s, p) == []
  {
    if s != [] {
      FilterNone(s[1..], p);
    }
  }

  lemma {:induction false} FilterDupFree<T>(s: seq<T>, p: T -> bool)
    requires DupFree(s)
    ensures DupFree(Filter(s, p))
  {
    if s != [] {
      FilterDupFree(s[1..], p);
    }
  }
}
