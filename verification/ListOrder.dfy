/**
 Sequences under a caller-supplied strict weak order, as `list_less_func` is in
 pintos-kaist/lib/kernel/list.c: sortedness, natural runs, the one-element move that a
 splice performs, and stability.

 A rearrangement is tracked by a sequence `perm` that runs beside the values: `perm[i]` is
 the position that the i-th element had in the original list.
 */
module ListOrder {

  /** What a comparison function must satisfy: irreflexive, and "not less" is transitive. */
  ghost predicate StrictWeak<T(!new)>(less: (T, T) -> bool) {
    && (forall a :: !less(a, a))
    && (forall a, b :: less(a, b) ==> !less(b, a))
    && (forall a, b, c :: less(a, b) ==> less(a, c) || less(c, b))
  }

  ghost predicate Sorted<T>(s: seq<T>, less: (T, T) -> bool) {
    forall i, j :: 0 <= i < j < |s| ==> !less(s[j], s[i])
  }

  /** Number of places where an element is less than its predecessor; a nonempty list has
      one natural run more than that. */
  ghost function Descents<T>(s: seq<T>, less: (T, T) -> bool): nat {
    if |s| <= 1 then 0
    else Descents(s[..|s| - 1], less) + (if less(s[|s| - 1], s[|s| - 2]) then 1 else 0)
  }

  /** 1 when the boundary between `a` and `b` is itself a descent. */
  ghost function Boundary<T>(a: seq<T>, b: seq<T>, less: (T, T) -> bool): nat {
    if a != [] && b != [] && less(b[0], a[|a| - 1]) then 1 else 0
  }

  lemma {:induction false} DescentsConcat<T>(a: seq<T>, b: seq<T>, less: (T, T) -> bool)
    ensures Descents(a + b, less) == Descents(a, less) + Descents(b, less) + Boundary(a, b, less)
  {
    if b == [] {
      assert a + b == a;
    } else {
      var b' := b[..|b| - 1];
      assert (a + b)[..|a + b| - 1] == a + b';
      DescentsConcat(a, b', less);
    }
  }

  lemma {:induction false} SortedHasNoDescents<T>(s: seq<T>, less: (T, T) -> bool)
    requires Sorted(s, less)
    ensures Descents(s, less) == 0
  {
    if |s| > 1 {
      SortedHasNoDescents(s[..|s| - 1], less);
    }
  }

  /** Adjacent order is enough: this is where the order's transitivity is used. */
  lemma {:induction false} NoDescentsIsSorted<T(!new)>(s: seq<T>, less: (T, T) -> bool)
    requires StrictWeak(less) && Descents(s, less) == 0
    ensures Sorted(s, less)
  {
    if |s| > 1 {
      var n := |s| - 1;
      NoDescentsIsSorted(s[..n], less);
      forall i | 0 <= i < n
        ensures !less(s[n], s[i])
      {
        assert !less(s[n], s[n - 1]);
        assert i < n - 1 ==> !less(s[..n][n - 1], s[..n][i]);
      }
    }
  }

  /** The element at `i` taken out and put back just before position `k`. */
  ghost function Move<X>(s: seq<X>, i: nat, k: nat): (r: seq<X>)
    requires k <= i < |s|
  {
    s[..k] + [s[i]] + s[k..i] + s[i + 1..]
  }

  ghost predicate IsPermutation(perm: seq<nat>, n: nat) {
    && |perm| == n
    && (forall i :: 0 <= i < n ==> perm[i] < n)
    && (forall i, j :: 0 <= i < j < n ==> perm[i] != perm[j])
  }

  /** The original positions in their original order. */
  ghost function Identity(n: nat): (p: seq<nat>)
    ensures IsPermutation(p, n)
  {
    seq(n, i => i)
  }

  /** Only strictly smaller elements may have overtaken others. */
  ghost predicate Stable<T>(s: seq<T>, perm: seq<nat>, less: (T, T) -> bool) {
    && |perm| == |s|
    && forall i, j :: 0 <= i < j < |s| ==> perm[i] < perm[j] || less(s[i], s[j])
  }

  /** Moving a strictly smaller element over a block keeps the rearrangement stable. */
  lemma MoveKeepsStable<T>(s: seq<T>, perm: seq<nat>, less: (T, T) -> bool, i: nat, k: nat)
    requires k <= i < |s| && Stable(s, perm, less)
    requires forall m :: k <= m < i ==> less(s[i], s[m])
    ensures Stable(Move(s, i, k), Move(perm, i, k), less)
  {
    var s', p' := Move(s, i, k), Move(perm, i, k);
    forall x, y | 0 <= x < y < |s'|
      ensures p'[x] < p'[y] || less(s'[x], s'[y])
    {
      var x0 := if x < k || i < x then x else if x == k then i else x - 1;
      var y0 := if y < k || i < y then y else if y == k then i else y - 1;
      assert s'[x] == s[x0] && p'[x] == perm[x0];
      assert s'[y] == s[y0] && p'[y] == perm[y0];
    }
  }

  lemma MoveKeepsPermutation(perm: seq<nat>, n: nat, i: nat, k: nat)
    requires IsPermutation(perm, n) && k <= i < n
    ensures IsPermutation(Move(perm, i, k), n)
  {
    var p' := Move(perm, i, k);
    forall x, y | 0 <= x < y < n
      ensures p'[x] != p'[y]
    {
      var x0 := if x < k || i < x then x else if x == k then i else x - 1;
      var y0 := if y < k || i < y then y else if y == k then i else y - 1;
      assert p'[x] == perm[x0] && p'[y] == perm[y0];
    }
  }

  /** A history of moves: each pair is (from, to). */
  type Moves = seq<(nat, nat)>

  ghost function Replay<X>(s: seq<X>, moves: Moves): (r: seq<X>)
    ensures |r| == |s|
  {
    if moves == [] then s else
      var n := |moves| - 1;
      var r, (i, k) := Replay(s, moves[..n]), moves[n];
      if k <= i < |r| then Move(r, i, k) else r
  }

  /** Every move took an element over strictly greater ones only. */
  ghost predicate Legal<T>(s: seq<T>, moves: Moves, less: (T, T) -> bool) {
    moves != [] ==>
      var n := |moves| - 1;
      var r, (i, k) := Replay(s, moves[..n]), moves[n];
      && Legal(s, moves[..n], less)
      && k <= i < |r|
      && forall m :: k <= m < i ==> less(r[i], r[m])
  }

  lemma LegalExtend<T>(s: seq<T>, moves: Moves, less: (T, T) -> bool, i: nat, k: nat)
    requires Legal(s, moves, less) && k <= i < |s|
    requires forall m :: k <= m < i ==> less(Replay(s, moves)[i], Replay(s, moves)[m])
    ensures Legal(s, moves + [(i, k)], less)
    ensures Replay(s, moves + [(i, k)]) == Move(Replay(s, moves), i, k)
  {
    assert (moves + [(i, k)])[..|moves|] == moves;
  }

  /** Legal moves, replayed on the positions, describe a stable rearrangement. */
  lemma {:induction false} LegalMovesAreStable<T>(s: seq<T>, moves: Moves, less: (T, T) -> bool)
    requires Legal(s, moves, less)
    ensures var r, perm := Replay(s, moves), Replay(Identity(|s|), moves);
            && IsPermutation(perm, |s|)
            && Stable(r, perm, less)
            && forall i :: 0 <= i < |s| ==> r[i] == s[perm[i]]
  {
    if moves != [] {
      var n := |moves| - 1;
      LegalMovesAreStable(s, moves[..n], less);
      var (i, k) := moves[n];
      OneMoreMove(s, Replay(s, moves[..n]), Replay(Identity(|s|), moves[..n]), less, i, k);
    }
  }

  lemma OneMoreMove<T>(s: seq<T>, r: seq<T>, perm: seq<nat>, less: (T, T) -> bool, i: nat, k: nat)
    requires IsPermutation(perm, |s|) && Stable(r, perm, less) && |r| == |s| && k <= i < |r|
    requires forall j :: 0 <= j < |s| ==> r[j] == s[perm[j]]
    requires forall m :: k <= m < i ==> less(r[i], r[m])
    ensures IsPermutation(Move(perm, i, k), |s|) && Stable(Move(r, i, k), Move(perm, i, k), less)
    ensures forall j :: 0 <= j < |s| ==> Move(r, i, k)[j] == s[Move(perm, i, k)[j]]
  {
    MoveKeepsStable(r, perm, less, i, k);
    MoveKeepsPermutation(perm, |s|, i, k);
  }

  // ---------------------------------------------------------------------------------
  // Merging two adjacent runs in place

  /** Half way through merging the runs that began as `lo..i` and `i..hi`: everything before
      `k` is in place, `k..i` is left of the first run and `i..hi` of the second. */
  ghost predicate Merging<T>(s: seq<T>, lo: nat, k: nat, i: nat, hi: nat, less: (T, T) -> bool) {
    && lo <= k <= i <= hi <= |s|
    && Sorted(s[lo..i], less)
    && Sorted(s[i..hi], less)
    && forall x, y :: lo <= x < k && i <= y < hi ==> !less(s[y], s[x])
  }

  lemma MergeKeepsFront<T(!new)>(s: seq<T>, lo: nat, k: nat, i: nat, hi: nat, less: (T, T) -> bool)
    requires StrictWeak(less) && Merging(s, lo, k, i, hi, less) && k < i < hi
    requires !less(s[i], s[k])
    ensures Merging(s, lo, k + 1, i, hi, less)
  {
    forall x, y | lo <= x < k + 1 && i <= y < hi
      ensures !less(s[y], s[x])
    {
      assert s[i..hi][y - i] == s[y] && s[i..hi][0] == s[i];
    }
  }

  lemma MergeTakesSecond<T(!new)>(s: seq<T>, lo: nat, k: nat, i: nat, hi: nat, less: (T, T) -> bool)
    requires StrictWeak(less) && Merging(s, lo, k, i, hi, less) && k < i < hi
    requires less(s[i], s[k])
    ensures forall m :: k <= m < i ==> less(s[i], s[m])
    ensures Merging(Move(s, i, k), lo, k + 1, i + 1, hi, less)
  {
    forall m | k <= m < i
      ensures less(s[i], s[m])
    {
      assert s[lo..i][m - lo] == s[m] && s[lo..i][k - lo] == s[k];
    }
    var r := Move(s, i, k);
    assert r[i + 1..hi] == s[i + 1..hi] == s[i..hi][1..];
    assert r[lo..i + 1] == InsertAt(s[lo..i], k - lo, s[i]);
    forall x, y | lo <= x < k + 1 && i + 1 <= y < hi
      ensures !less(r[y], r[x])
    {
      assert s[i..hi][y - i] == s[y] && s[i..hi][0] == s[i];
    }
  }

  lemma MergeDone<T>(s: seq<T>, lo: nat, k: nat, i: nat, hi: nat, less: (T, T) -> bool)
    requires Merging(s, lo, k, i, hi, less) && (k == i || i == hi)
    ensures Sorted(s[lo..hi], less)
  {
    var a, b := s[lo..i], s[i..hi];
    assert s[lo..hi] == a + b;
  }

  lemma SortedExtend<T(!new)>(s: seq<T>, x: T, less: (T, T) -> bool)
    requires StrictWeak(less) && Sorted(s, less) && (s != [] ==> !less(x, s[|s| - 1]))
    ensures Sorted(s + [x], less)
  {
  }

  // ---------------------------------------------------------------------------------
  // One pass of the natural merge sort

  /** `d0` is the list at the start of the pass and `d` the list now; the pass has handled the
      first `p` elements and written `runs` output runs, each from two input runs. */
  ghost predicate PassState<T>(d0: seq<T>, d: seq<T>, p: nat, runs: nat, less: (T, T) -> bool) {
    && p <= |d| == |d0|
    && d[p..] == d0[p..]
    && (p == 0 <==> runs == 0)
    && (runs > 0 ==> Descents(d[..p], less) < runs)
    && (p < |d| ==> Descents(d0[..p + 1], less) >= 2 * runs)
    && (p == |d| && runs > 0 ==> Descents(d0, less) >= 2 * runs - 1)
  }

  lemma PassEndsOnOneRun<T>(d0: seq<T>, d: seq<T>, p: nat, runs: nat, less: (T, T) -> bool)
    requires PassState(d0, d, p, runs, less) && p < |d|
    requires Sorted(d[p..], less)
    ensures Descents(d, less) <= runs
    ensures runs > 0 ==> Descents(d, less) < Descents(d0, less)
  {
    SortedHasNoDescents(d[p..], less);
    DescentsSplit(d, p, less);
    DescentsSplit(d0, p + 1, less);
  }

  lemma PassEndsOnPair<T>(d0: seq<T>, d: seq<T>, runs: nat, less: (T, T) -> bool)
    requires PassState(d0, d, |d|, runs, less)
    ensures runs <= 1 ==> Descents(d, less) == 0
    ensures runs > 1 ==> Descents(d, less) < Descents(d0, less)
  {
    assert d[..|d|] == d;
  }

  lemma PassMergesTwoRuns<T>(d0: seq<T>, d: seq<T>, d': seq<T>, p: nat, mid: nat, hi: nat, runs: nat,
                             less: (T, T) -> bool)
    requires PassState(d0, d, p, runs, less) && p < mid < hi <= |d| == |d'|
    requires less(d[mid], d[mid - 1]) && (hi < |d| ==> less(d[hi], d[hi - 1]))
    requires d'[..p] == d[..p] && d'[hi..] == d[hi..] && Sorted(d'[p..hi], less)
    ensures PassState(d0, d', hi, runs + 1, less)
  {
    assert Descents(d'[..hi], less) <= runs by {
      SortedHasNoDescents(d'[p..hi], less);
      DescentsSplit(d'[..hi], p, less);
      assert d'[..hi][..p] == d'[..p] && d'[..hi][p..] == d'[p..hi];
    }
    assert d'[hi..] == d0[hi..] by {
      assert d[hi..] == d[p..][hi - p..] && d0[hi..] == d0[p..][hi - p..];
    }
    SuffixAgrees(d0, d, p);
    assert Descents(d0[..hi], less) >= 2 * runs + 1 by {
      BoundaryCounts(d0[..hi], p + 1, mid, less);
      assert d0[..hi][..p + 1] == d0[..p + 1];
    }
    if hi < |d| {
      BoundaryCounts(d0[..hi + 1], hi, hi, less);
      assert d0[..hi + 1][..hi] == d0[..hi];
    } else {
      assert d0[..hi] == d0;
    }
  }

  lemma SuffixAgrees<T>(a: seq<T>, b: seq<T>, p: nat)
    requires p <= |a| == |b| && a[p..] == b[p..]
    ensures forall i :: p <= i < |a| ==> a[i] == b[i]
  {
    forall i | p <= i < |a|
      ensures a[i] == b[i]
    {
      assert a[p..][i - p] == b[p..][i - p];
    }
  }

  lemma DescentsSplit<T>(s: seq<T>, p: nat, less: (T, T) -> bool)
    requires p <= |s|
    ensures Descents(s, less) == Descents(s[..p], less) + Descents(s[p..], less)
                                 + (if 0 < p < |s| && less(s[p], s[p - 1]) then 1 else 0)
  {
    var a, b := s[..p], s[p..];
    BoundaryAt(s, p, less);
    DescentsConcat(a, b, less);
    SameDescents(s, a + b, less);
  }

  lemma BoundaryAt<T>(s: seq<T>, p: nat, less: (T, T) -> bool)
    requires p <= |s|
    ensures Boundary(s[..p], s[p..], less) == if 0 < p < |s| && less(s[p], s[p - 1]) then 1 else 0
  {
  }

  lemma SameDescents<T>(s: seq<T>, t: seq<T>, less: (T, T) -> bool)
    requires s == t
    ensures Descents(s, less) == Descents(t, less)
  {
  }

  /** A descent at `m` is not among the descents of a prefix that ends at or before `m`. */
  lemma BoundaryCounts<T>(s: seq<T>, p: nat, m: nat, less: (T, T) -> bool)
    requires 0 < p <= m < |s| && less(s[m], s[m - 1])
    ensures Descents(s, less) >= Descents(s[..p], less) + 1
  {
    DescentsSplit(s, m, less);
    DescentsSplit(s[..m], p, less);
    assert s[..m][..p] == s[..p];
  }

  // ---------------------------------------------------------------------------------
  // A reference sort: insert the elements one by one, each after its equals, exactly as
  // repeated list_insert_ordered would.

  /** The first position whose element is greater than `x`. */
  function InsertionPoint<T>(s: seq<T>, x: T, less: (T, T) -> bool): (k: nat)
    ensures k <= |s|
  {
    if s == [] || less(x, s[0]) then 0 else 1 + InsertionPoint(s[1..], x, less)
  }

  lemma {:induction false} InsertionPointIsFirst<T>(s: seq<T>, x: T, less: (T, T) -> bool)
    ensures var k := InsertionPoint(s, x, less);
            && (k < |s| ==> less(x, s[k]))
            && forall i :: 0 <= i < k ==> !less(x, s[i])
  {
    if s != [] && !less(x, s[0]) {
      InsertionPointIsFirst(s[1..], x, less);
      var k := InsertionPoint(s[1..], x, less);
      forall i | 0 <= i < k + 1
        ensures !less(x, s[i])
      {
        assert i > 0 ==> s[i] == s[1..][i - 1];
      }
    }
  }

  function InsertAt<X>(s: seq<X>, k: nat, x: X): (r: seq<X>)
    requires k <= |s|
  {
    s[..k] + [x] + s[k..]
  }

  lemma InsertionPointUnique<T>(s: seq<T>, x: T, less: (T, T) -> bool, k: nat)
    requires k <= |s| && (k < |s| ==> less(x, s[k])) && forall i :: 0 <= i < k ==> !less(x, s[i])
    ensures InsertionPoint(s, x, less) == k
  {
    InsertionPointIsFirst(s, x, less);
  }

  lemma InsertKeepsSorted<T(!new)>(s: seq<T>, x: T, less: (T, T) -> bool)
    requires StrictWeak(less) && Sorted(s, less)
    ensures Sorted(InsertAt(s, InsertionPoint(s, x, less), x), less)
  {
    var k := InsertionPoint(s, x, less);
    InsertionPointIsFirst(s, x, less);
    var r := InsertAt(s, k, x);
    forall i, j | 0 <= i < j < |r|
      ensures !less(r[j], r[i])
    {
      if i == k {
        assert r[j] == s[j - 1];
        assert k < j - 1 ==> !less(s[j - 1], s[k]);
      } else if j == k {
        assert r[i] == s[i];
      } else {
        var i0 := if i < k then i else i - 1;
        var j0 := if j < k then j else j - 1;
        assert r[i] == s[i0] && r[j] == s[j0];
      }
    }
  }

  /** Positions of `s` in insertion-sorted order. */
  function InsertionSort<T>(s: seq<T>, less: (T, T) -> bool): (r: (seq<T>, seq<nat>))
    ensures |r.0| == |r.1| == |s|
  {
    if s == [] then ([], []) else
      var n := |s| - 1;
      var (t, p) := InsertionSort(s[..n], less);
      var k := InsertionPoint(t, s[n], less);
      (InsertAt(t, k, s[n]), InsertAt(p, k, n))
  }

  lemma {:induction false} InsertionSortPermutes<T>(s: seq<T>, less: (T, T) -> bool)
    ensures var (r, p) := InsertionSort(s, less);
            IsPermutation(p, |s|) && forall i :: 0 <= i < |s| ==> r[i] == s[p[i]]
  {
    if s != [] {
      var n := |s| - 1;
      InsertionSortPermutes(s[..n], less);
      var (t, q) := InsertionSort(s[..n], less);
      var k := InsertionPoint(t, s[n], less);
      InsertKeepsPermutation(q, k, n);
      var r, p := InsertAt(t, k, s[n]), InsertAt(q, k, n);
      forall i | 0 <= i < |s|
        ensures r[i] == s[p[i]]
      {
        assert i < k ==> p[i] == q[i] && r[i] == t[i];
        assert k < i ==> p[i] == q[i - 1] && r[i] == t[i - 1];
      }
    }
  }

  lemma InsertKeepsPermutation(perm: seq<nat>, k: nat, n: nat)
    requires IsPermutation(perm, n) && k <= n
    ensures IsPermutation(InsertAt(perm, k, n), n + 1)
  {
    var p := InsertAt(perm, k, n);
    forall i | 0 <= i < n + 1
      ensures i < k ==> p[i] == perm[i]
      ensures k < i ==> p[i] == perm[i - 1]
    {
    }
  }

  lemma InsertAtIndex<X>(s: seq<X>, k: nat, x: X, i: nat)
    requires k <= |s| && i <= |s|
    ensures |InsertAt(s, k, x)| == |s| + 1
    ensures InsertAt(s, k, x)[i] == if i < k then s[i] else if i == k then x else s[i - 1]
  {
  }

  lemma InsertKeepsStable<T(!new)>(s: seq<T>, perm: seq<nat>, x: T, n: nat, less: (T, T) -> bool)
    requires StrictWeak(less) && Sorted(s, less) && Stable(s, perm, less)
    requires forall i :: 0 <= i < |perm| ==> perm[i] < n
    ensures var k := InsertionPoint(s, x, less);
            Stable(InsertAt(s, k, x), InsertAt(perm, k, n), less)
  {
    var k := InsertionPoint(s, x, less);
    InsertionPointIsFirst(s, x, less);
    var r, q := InsertAt(s, k, x), InsertAt(perm, k, n);
    forall i, j | 0 <= i < j < |r|
      ensures q[i] < q[j] || less(r[i], r[j])
    {
      InsertAtIndex(s, k, x, i);
      InsertAtIndex(s, k, x, j);
      InsertAtIndex(perm, k, n, i);
      InsertAtIndex(perm, k, n, j);
      if i == k {
        assert k < j - 1 ==> !less(s[j - 1], s[k]);
      }
    }
  }

  lemma {:induction false} InsertionSortIsStableSort<T(!new)>(s: seq<T>, less: (T, T) -> bool)
    requires StrictWeak(less)
    ensures var (r, p) := InsertionSort(s, less); Sorted(r, less) && Stable(r, p, less)
  {
    if s != [] {
      var n := |s| - 1;
      InsertionSortIsStableSort(s[..n], less);
      InsertionSortPermutes(s[..n], less);
      var (t, p) := InsertionSort(s[..n], less);
      InsertKeepsSorted(t, s[n], less);
      InsertKeepsStable(t, p, s[n], n, less);
    }
  }

  /** What a stable sort of `s` is: sorted, stable, and a rearrangement of `s` by `perm`. */
  ghost predicate IsStableSort<T>(s: seq<T>, r: seq<T>, perm: seq<nat>, less: (T, T) -> bool) {
    && |r| == |s|
    && IsPermutation(perm, |s|)
    && (forall i :: 0 <= i < |s| ==> r[i] == s[perm[i]])
    && Sorted(r, less)
    && Stable(r, perm, less)
  }

  /** Comes strictly first in every stable sort of `s`. */
  ghost predicate First<T>(s: seq<T>, x: nat, y: nat, less: (T, T) -> bool)
    requires x < |s| && y < |s|
  {
    less(s[x], s[y]) || (!less(s[y], s[x]) && x < y)
  }

  ghost predicate Ordered<T>(s: seq<T>, p: seq<nat>, less: (T, T) -> bool) {
    && (forall i :: 0 <= i < |p| ==> p[i] < |s|)
    && forall i, j :: 0 <= i < j < |p| ==> First(s, p[i], p[j], less)
  }

  lemma HeadIsFirst<T(!new)>(s: seq<T>, p: seq<nat>, less: (T, T) -> bool)
    requires StrictWeak(less) && Ordered(s, p, less) && p != []
    ensures forall x :: x in p && x != p[0] ==> First(s, p[0], x, less)
    ensures p[0] !in p[1..]
  {
    forall m | 0 < m < |p|
      ensures First(s, p[0], p[m], less) && p[m] != p[0]
    {
    }
  }

  /** Two listings of the same positions in the same strict order are the same listing. */
  lemma {:induction false} OrderedListingUnique<T(!new)>(
      s: seq<T>, p: seq<nat>, q: seq<nat>, less: (T, T) -> bool)
    requires StrictWeak(less) && Ordered(s, p, less) && Ordered(s, q, less)
    requires |p| == |q| && (forall x :: x in p <==> x in q)
    ensures p == q
    decreases |p|
  {
    if p != [] {
      assert p[0] in q && q[0] in p;
      HeadIsFirst(s, p, less);
      HeadIsFirst(s, q, less);
      assert p[0] == q[0];
      var p', q' := p[1..], q[1..];
      forall x
        ensures x in p' <==> x in q'
      {
        assert x in p <==> x == p[0] || x in p';
        assert x in q <==> x == q[0] || x in q';
      }
      OrderedListingUnique(s, p', q', less);
    }
  }

  lemma {:induction false} PermutationCovers(perm: seq<nat>, n: nat)
    requires IsPermutation(perm, n)
    ensures forall x: nat :: x in perm <==> x < n
  {
    var image := set i | 0 <= i < n :: perm[i];
    var all := Below(n);
    ImageSize(perm, n);
    assert image <= all;
    assert all == image + (all - image);
    assert |all| == |image| + |all - image|;
    forall x: nat
      ensures x in perm <==> x < n
    {
      if x < n { assert x in image; }
    }
  }

  lemma {:induction false} ImageSize(perm: seq<nat>, n: nat)
    requires |perm| >= n && forall i, j :: 0 <= i < j < n ==> perm[i] != perm[j]
    ensures |set i | 0 <= i < n :: perm[i]| == n
  {
    var image := set i | 0 <= i < n :: perm[i];
    if n == 0 {
      assert image == {};
    } else {
      var rest := set i | 0 <= i < n - 1 :: perm[i];
      ImageSize(perm, n - 1);
      assert image == rest + {perm[n - 1]};
    }
  }

  ghost function Below(n: nat): (r: set<nat>)
    ensures |r| == n
    ensures forall x: nat :: x in r <==> x < n
  {
    if n == 0 then {} else Below(n - 1) + {n - 1}
  }

  /** A list has one stable sort, so any stable sort agrees with inserting one by one. */
  lemma StableSortUnique<T(!new)>(s: seq<T>, r: seq<T>, perm: seq<nat>, less: (T, T) -> bool)
    requires StrictWeak(less) && IsStableSort(s, r, perm, less)
    ensures (r, perm) == InsertionSort(s, less)
  {
    var (r', perm') := InsertionSort(s, less);
    InsertionSortIsStableSort(s, less);
    InsertionSortPermutes(s, less);
    PermutationCovers(perm, |s|);
    PermutationCovers(perm', |s|);
    StableSortIsOrdered(s, r, perm, less);
    StableSortIsOrdered(s, r', perm', less);
    OrderedListingUnique(s, perm, perm', less);
    assert r == r';
  }

  lemma StableSortIsOrdered<T>(s: seq<T>, r: seq<T>, perm: seq<nat>, less: (T, T) -> bool)
    requires IsStableSort(s, r, perm, less)
    ensures Ordered(s, perm, less)
  {
    forall i, j | 0 <= i < j < |perm|
      ensures First(s, perm[i], perm[j], less)
    {
      assert r[i] == s[perm[i]] && r[j] == s[perm[j]];
    }
  }
}
