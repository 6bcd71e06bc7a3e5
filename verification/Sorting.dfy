/**
 Heapsort and binary search on arrays: `heapify`, `sort` and `binary_search` of
 pintos-kaist/lib/stdlib.c, with its 1-based heap indices.
 */
module Sorting {
  /** A strcmp()-style comparison: its sign orders the elements. */
  predicate Le<T(!new)>(cmp: (T, T) -> int, a: T, b: T) { cmp(a, b) <= 0 }

  ghost predicate Ordering<T(!new)>(cmp: (T, T) -> int) {
    (forall a, b {:trigger cmp(a, b)} :: (cmp(a, b) < 0 <==> cmp(b, a) > 0)) &&
    (forall a, b, c {:trigger Le(cmp, a, b), Le(cmp, b, c)} :: Le(cmp, a, b) && Le(cmp, b, c) ==> Le(cmp, a, c))
  }

  ghost predicate Sorted<T(!new)>(cmp: (T, T) -> int, s: seq<T>) {
    forall i, j :: 0 <= i < j < |s| ==> Le(cmp, s[i], s[j])
  }

  // ---------------------------------------------------------------- heaps

  /** The element with 1-based index `c` is not above its parent. */
  predicate Below<T(!new)>(cmp: (T, T) -> int, s: seq<T>, c: nat)
    requires 2 <= c <= |s|
  {
    Le(cmp, s[c - 1], s[c / 2 - 1])
  }

  /** The element with 1-based index `c` is not above its parent's parent. */
  predicate Under<T(!new)>(cmp: (T, T) -> int, s: seq<T>, c: nat)
    requires 4 <= c <= |s|
  {
    Le(cmp, s[c - 1], s[c / 4 - 1])
  }

  /** Among the first `n` elements, every child of a node from `lo` on is below it, except perhaps the
      children of `hole`. */
  ghost predicate HeapBut<T(!new)>(cmp: (T, T) -> int, s: seq<T>, lo: nat, n: nat, hole: nat)
    requires n <= |s|
  {
    forall c: nat {:trigger Below(cmp, s, c)} :: 2 <= c <= n && c / 2 >= lo && c / 2 != hole ==> Below(cmp, s, c)
  }

  /** The children of `hole` are below its parent. */
  ghost predicate Bridged<T(!new)>(cmp: (T, T) -> int, s: seq<T>, lo: nat, n: nat, hole: nat)
    requires n <= |s|
  {
    forall c: nat {:trigger Under(cmp, s, c)} :: 4 <= c <= n && c / 2 == hole && c / 4 >= lo ==> Under(cmp, s, c)
  }

  lemma {:induction false} RootIsMax<T(!new)>(cmp: (T, T) -> int, s: seq<T>, n: nat, c: nat)
    requires Ordering(cmp) && n <= |s| && HeapBut(cmp, s, 1, n, 0) && 1 <= c <= n
    ensures Le(cmp, s[c - 1], s[0])
    decreases c
  {
    if c == 1 {
      assert cmp(s[0], s[0]) <= 0;
    } else {
      RootIsMax(cmp, s, n, c / 2);
      assert Below(cmp, s, c);
    }
  }

  function Swapped<T>(s: seq<T>, i: nat, j: nat): seq<T>
    requires 1 <= i <= |s| && 1 <= j <= |s|
  {
    s[i - 1 := s[j - 1]][j - 1 := s[i - 1]]
  }

  lemma SwapPermutes<T>(s: seq<T>, i: nat, j: nat, n: nat)
    requires 1 <= i <= n && 1 <= j <= n && n <= |s|
    ensures multiset(Swapped(s, i, j)[..n]) == multiset(s[..n])
    ensures Swapped(s, i, j)[n..] == s[n..]
  {
    var p := s[..n];
    assert Swapped(s, i, j)[..n] == Swapped(p, i, j);
  }

  /** The larger of the hole and its children, as the loop body finds it. */
  function Largest<T(!new)>(cmp: (T, T) -> int, s: seq<T>, i: nat, n: nat): (max: nat)
    requires 1 <= i <= n <= |s|
    ensures i <= max <= n && (max == i || max == 2 * i || max == 2 * i + 1)
  {
    var l := if 2 * i <= n && cmp(s[2 * i - 1], s[i - 1]) > 0 then 2 * i else i;
    if 2 * i + 1 <= n && cmp(s[2 * i], s[l - 1]) > 0 then 2 * i + 1 else l
  }

  lemma LargestIsMax<T(!new)>(cmp: (T, T) -> int, s: seq<T>, i: nat, n: nat)
    requires Ordering(cmp) && 1 <= i <= n <= |s|
    ensures var m := Largest(cmp, s, i, n);
      Le(cmp, s[i - 1], s[m - 1]) &&
      (2 * i <= n ==> Le(cmp, s[2 * i - 1], s[m - 1])) && (2 * i + 1 <= n ==> Le(cmp, s[2 * i], s[m - 1]))
  {
    var m := Largest(cmp, s, i, n);
    assert cmp(s[m - 1], s[m - 1]) <= 0;
    var l := if 2 * i <= n && cmp(s[2 * i - 1], s[i - 1]) > 0 then 2 * i else i;
    assert Le(cmp, s[i - 1], s[l - 1]) by { assert cmp(s[i - 1], s[i - 1]) <= 0; }
    assert Le(cmp, s[l - 1], s[m - 1]);
    if 2 * i <= n { assert Le(cmp, s[2 * i - 1], s[l - 1]) by { assert cmp(s[2 * i - 1], s[2 * i - 1]) <= 0; } }
  }

  /** One turn of the loop moves the hole down and keeps everything else in order. */
  lemma SiftStep<T(!new)>(cmp: (T, T) -> int, s: seq<T>, lo: nat, n: nat, i: nat)
    requires Ordering(cmp) && 1 <= lo <= i <= n <= |s| && HeapBut(cmp, s, lo, n, i) && Bridged(cmp, s, lo, n, i)
    ensures var m := Largest(cmp, s, i, n);
      if m == i then HeapBut(cmp, s, lo, n, 0)
      else HeapBut(cmp, Swapped(s, i, m), lo, n, m) && Bridged(cmp, Swapped(s, i, m), lo, n, m)
  {
    var m := Largest(cmp, s, i, n);
    LargestIsMax(cmp, s, i, n);
    if m == i {
      forall c: nat | 2 <= c <= n && c / 2 >= lo ensures Below(cmp, s, c) {
        if c / 2 == i { assert c == 2 * i || c == 2 * i + 1; }
      }
    } else {
      SiftSwap(cmp, s, lo, n, i, m, Swapped(s, i, m));
    }
  }

  lemma SiftSwap<T(!new)>(cmp: (T, T) -> int, s: seq<T>, lo: nat, n: nat, i: nat, m: nat, r: seq<T>)
    requires Ordering(cmp) && 1 <= lo <= i < m <= n <= |s| && HeapBut(cmp, s, lo, n, i) && Bridged(cmp, s, lo, n, i)
    requires m / 2 == i && r == Swapped(s, i, m)
    requires Le(cmp, s[i - 1], s[m - 1])
    requires (2 * i <= n ==> Le(cmp, s[2 * i - 1], s[m - 1])) && (2 * i + 1 <= n ==> Le(cmp, s[2 * i], s[m - 1]))
    ensures HeapBut(cmp, r, lo, n, m) && Bridged(cmp, r, lo, n, m)
  {
    forall c: nat | 2 <= c <= n && c / 2 >= lo && c / 2 != m ensures Below(cmp, r, c) {
      if c / 2 == i {
        assert c == 2 * i || c == 2 * i + 1;
      } else if c == i {
        assert Under(cmp, s, m);
      } else {
        assert Below(cmp, s, c);
      }
    }
    forall c: nat | 4 <= c <= n && c / 2 == m ensures Under(cmp, r, c) {
      assert Below(cmp, s, c);
    }
  }

  // ---------------------------------------------------------------- the loops

  method Swap<T>(a: array<T>, i: nat, j: nat)
    requires 1 <= i <= a.Length && 1 <= j <= a.Length
    modifies a
    ensures a[..] == Swapped(old(a[..]), i, j)
  {
    a[i - 1], a[j - 1] := a[j - 1], a[i - 1];
  }

  /** Floating element `i` down extends a heap of the nodes after `i` to one that includes it. */
  method Heapify<T(!new)>(a: array<T>, i: nat, cnt: nat, cmp: (T, T) -> int)
    requires Ordering(cmp) && 1 <= i <= cnt <= a.Length && HeapBut(cmp, a[..], i + 1, cnt, 0)
    modifies a
    ensures HeapBut(cmp, a[..], i, cnt, 0)
    ensures multiset(a[..cnt]) == multiset(old(a[..cnt])) && a[cnt..] == old(a[cnt..])
  {
    var j := i;
    HoleAtStart(cmp, a[..], i, cnt);
    while true
      invariant i <= j <= cnt
      invariant HeapBut(cmp, a[..], i, cnt, j) && Bridged(cmp, a[..], i, cnt, j)
      invariant multiset(a[..cnt]) == multiset(old(a[..cnt])) && a[cnt..] == old(a[cnt..])
      decreases cnt - j
    {
      ghost var s := a[..];
      var left, right, max := 2 * j, 2 * j + 1, j;
      if left <= cnt && cmp(a[left - 1], a[max - 1]) > 0 {
        max := left;
      }
      if right <= cnt && cmp(a[right - 1], a[max - 1]) > 0 {
        max := right;
      }
      assert max == Largest(cmp, s, j, cnt);
      SiftStep(cmp, s, i, cnt, j);
      if max == j {
        break;
      }
      SwapPermutes(s, j, max, cnt);
      assert a[..cnt] == s[..cnt] && a[cnt..] == s[cnt..];
      Swap(a, j, max);
      assert a[..cnt] == a[..][..cnt] && a[cnt..] == a[..][cnt..];
      j := max;
    }
  }

  lemma HoleAtStart<T(!new)>(cmp: (T, T) -> int, s: seq<T>, i: nat, n: nat)
    requires 1 <= i <= n <= |s| && HeapBut(cmp, s, i + 1, n, 0)
    ensures HeapBut(cmp, s, i, n, i) && Bridged(cmp, s, i, n, i)
  {
    forall c: nat | 2 <= c <= n && c / 2 >= i && c / 2 != i ensures Below(cmp, s, c) {}
  }

  /** The last `|s| - n` elements are in order, and none of the first `n` is above them. */
  ghost predicate Finished<T(!new)>(cmp: (T, T) -> int, s: seq<T>, n: nat)
    requires n <= |s|
  {
    (forall i, j :: n <= i < j < |s| ==> Le(cmp, s[i], s[j])) &&
    (forall i, j :: 0 <= i < n <= j < |s| ==> Le(cmp, s[i], s[j]))
  }

  method BuildHeap<T(!new)>(a: array<T>, cmp: (T, T) -> int)
    requires Ordering(cmp)
    modifies a
    ensures HeapBut(cmp, a[..], 1, a.Length, 0)
    ensures multiset(a[..]) == multiset(old(a[..]))
  {
    var i := a.Length / 2;
    while i > 0
      invariant 0 <= i <= a.Length / 2 && HeapBut(cmp, a[..], i + 1, a.Length, 0)
      invariant multiset(a[..]) == multiset(old(a[..]))
    {
      assert a[..] == a[..a.Length];
      Heapify(a, i, a.Length, cmp);
      assert a[..] == a[..a.Length];
      i := i - 1;
    }
  }

  /** The root goes behind the shrunken heap, where it belongs. */
  lemma RootFinished<T(!new)>(cmp: (T, T) -> int, s: seq<T>, n: nat)
    requires Ordering(cmp) && 2 <= n <= |s| && HeapBut(cmp, s, 1, n, 0) && Finished(cmp, s, n)
    ensures var r := Swapped(s, 1, n); Finished(cmp, r, n - 1) && HeapBut(cmp, r, 2, n - 1, 0)
  {
    var r := Swapped(s, 1, n);
    var m := n - 1;
    forall c: nat | 2 <= c <= m && c / 2 >= 2 ensures Below(cmp, r, c) { assert Below(cmp, s, c); }
    forall i, j | 0 <= i < m <= j < |s| ensures Le(cmp, r[i], r[j]) {
      RootIsMax(cmp, s, n, if i == 0 then n else i + 1);
      if j > m { assert r[j] == s[j]; }
    }
    forall i, j | m <= i < j < |s| ensures Le(cmp, r[i], r[j]) {
      assert r[j] == s[j];
      if i > m { assert r[i] == s[i]; }
    }
  }

  /** Permuting the first `n` elements leaves the rest finished. */
  lemma StillFinished<T(!new)>(cmp: (T, T) -> int, s: seq<T>, r: seq<T>, n: nat)
    requires n <= |s| == |r| && Finished(cmp, s, n) && multiset(r[..n]) == multiset(s[..n]) && r[n..] == s[n..]
    ensures Finished(cmp, r, n)
  {
    forall j | n <= j < |r| ensures r[j] == s[j] { assert r[n..][j - n] == s[n..][j - n]; }
    forall i, j | 0 <= i < n <= j < |r| ensures Le(cmp, r[i], r[j]) {
      assert r[..n][i] in multiset(s[..n]);
      var k :| 0 <= k < n && s[..n][k] == r[i];
      assert s[k] == r[i];
    }
  }

  lemma PrefixPermutes<T>(s: seq<T>, r: seq<T>, n: nat)
    requires n <= |s| == |r| && multiset(r[..n]) == multiset(s[..n]) && r[n..] == s[n..]
    ensures multiset(r) == multiset(s)
  {
    assert s == s[..n] + s[n..] && r == r[..n] + r[n..];
  }

  /** Moving the root to the end and repairing the heap before it. */
  method TakeRoot<T(!new)>(a: array<T>, n: nat, cmp: (T, T) -> int)
    requires Ordering(cmp) && 2 <= n <= a.Length && HeapBut(cmp, a[..], 1, n, 0) && Finished(cmp, a[..], n)
    modifies a
    ensures HeapBut(cmp, a[..], 1, n - 1, 0) && Finished(cmp, a[..], n - 1)
    ensures multiset(a[..]) == multiset(old(a[..]))
  {
    ghost var s := a[..];
    RootFinished(cmp, s, n);
    SwapPermutes(s, 1, n, a.Length);
    assert s[..a.Length] == s && Swapped(s, 1, n)[..a.Length] == Swapped(s, 1, n);
    Swap(a, 1, n);
    ghost var t := a[..];
    assert t[..n - 1] == a[..n - 1] && t[n - 1..] == a[n - 1..];
    Heapify(a, 1, n - 1, cmp);
    assert a[..][..n - 1] == a[..n - 1] && a[..][n - 1..] == a[n - 1..];
    StillFinished(cmp, t, a[..], n - 1);
    PrefixPermutes(t, a[..], n - 1);
  }

  /** For every array and every total preorder the result is the same elements in order. */
  method Sort<T(!new)>(a: array<T>, cmp: (T, T) -> int)
    requires Ordering(cmp)
    modifies a
    ensures Sorted(cmp, a[..]) && multiset(a[..]) == multiset(old(a[..]))
  {
    BuildHeap(a, cmp);
    var i := a.Length;
    while i > 1
      invariant 0 <= i <= a.Length && (i == 0 ==> a.Length == 0)
      invariant HeapBut(cmp, a[..], 1, i, 0) && Finished(cmp, a[..], i)
      invariant multiset(a[..]) == multiset(old(a[..]))
    {
      TakeRoot(a, i, cmp);
      i := i - 1;
    }
  }

  // ---------------------------------------------------------------- searching

  /** The key compares with an ordered array monotonically: greater, then equal, then less. */
  ghost predicate Consistent<K, T(!new)>(key: K, cmp: (K, T) -> int, s: seq<T>) {
    forall i, j :: 0 <= i < j < |s| ==>
      (cmp(key, s[i]) < 0 ==> cmp(key, s[j]) < 0) && (cmp(key, s[j]) > 0 ==> cmp(key, s[i]) > 0)
  }

  lemma SortedIsConsistent<T(!new)>(key: T, cmp: (T, T) -> int, s: seq<T>)
    requires Ordering(cmp) && Sorted(cmp, s)
    ensures Consistent(key, cmp, s)
  {
    forall i, j | 0 <= i < j < |s|
      ensures (cmp(key, s[i]) < 0 ==> cmp(key, s[j]) < 0) && (cmp(key, s[j]) > 0 ==> cmp(key, s[i]) > 0)
    {
      assert Le(cmp, s[i], s[j]);
      assert Le(cmp, key, s[i]) ==> Le(cmp, key, s[j]);
      assert Le(cmp, s[j], key) ==> Le(cmp, s[i], key);
    }
  }

  /** A match is found exactly when there is one. */
  method BinarySearch<K, T(!new)>(key: K, a: array<T>, cmp: (K, T) -> int) returns (at: int)
    requires Consistent(key, cmp, a[..])
    ensures at == -1 <==> forall i :: 0 <= i < a.Length ==> cmp(key, a[i]) != 0
    ensures at != -1 ==> 0 <= at < a.Length && cmp(key, a[at]) == 0
  {
    ghost var s := a[..];
    var first, last := 0, a.Length;
    while first < last
      invariant 0 <= first <= last <= a.Length
      invariant forall i :: 0 <= i < first ==> cmp(key, s[i]) > 0
      invariant forall i :: last <= i < a.Length ==> cmp(key, s[i]) < 0
    {
      var middle := first + (last - first) / 2;
      var c := cmp(key, a[middle]);
      if c < 0 {
        last := middle;
      } else if c > 0 {
        first := middle + 1;
      } else {
        return middle;
      }
    }
    forall i | 0 <= i < a.Length ensures cmp(key, a[i]) != 0 { assert a[i] == s[i]; }
    return -1;
  }

  /** Sorting first, a search answers whether the key was anywhere in the original array. */
  method SortAndSearch<T(!new)>(key: T, a: array<T>, cmp: (T, T) -> int) returns (at: int)
    requires Ordering(cmp)
    modifies a
    ensures at != -1 <==> exists x :: x in multiset(old(a[..])) && cmp(key, x) == 0
    ensures at != -1 ==> 0 <= at < a.Length && cmp(key, a[at]) == 0
  {
    ghost var before := a[..];
    Sort(a, cmp);
    SortedIsConsistent(key, cmp, a[..]);
    at := BinarySearch(key, a, cmp);
    if at != -1 {
      assert a[..][at] in multiset(a[..]);
    } else {
      forall x | x in multiset(before) ensures cmp(key, x) != 0 {
        assert x in multiset(a[..]);
        var i :| 0 <= i < a.Length && a[..][i] == x;
      }
    }
  }
}
