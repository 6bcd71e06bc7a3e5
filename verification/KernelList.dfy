/**
 The intrusive doubly linked list of pintos-kaist/lib/kernel/list.c, at the level of its
 `prev` and `next` pointers, with its in-place natural merge sort.

 The ghost field `nodes` names the elements in order, the two header elements included; every
 operation says what it does to that sequence, and `Valid` ties it to the pointers.
 */
module KernelList {
  import opened ListOrder

  /** `struct list_elem`, with the value of the structure that it is embedded in. */
  class Elem<T(0)> {
    const data: T
    var prev: Elem?<T>
    var next: Elem?<T>

    constructor (data: T)
      ensures this.data == data
    {
      this.data := data;
    }

    /** A header element; its value is never looked at. */
    constructor Header() {
    }

    predicate IsInterior()
      reads this
    {
      prev != null && next != null
    }

    predicate IsTail()
      reads this
    {
      prev != null && next == null
    }
  }

  ghost function Data<T(0)>(s: seq<Elem<T>>): (r: seq<T>)
    ensures |r| == |s| && forall i :: 0 <= i < |s| ==> r[i] == s[i].data
  {
    seq(|s|, i requires 0 <= i < |s| => s[i].data)
  }

  lemma DataOfSlices<T(0)>(s: seq<Elem<T>>, t: seq<Elem<T>>, p: nat, q: nat)
    requires |s| == |t| && p <= |s| && q <= |s| && s[..p] == t[..p] && s[q..] == t[q..]
    ensures Data(s)[..p] == Data(t)[..p] && Data(s)[q..] == Data(t)[q..]
  {
    forall i | 0 <= i < p
      ensures s[i] == t[i]
    {
      assert s[..p][i] == t[..p][i];
    }
    forall i | q <= i < |s|
      ensures s[i] == t[i]
    {
      assert s[q..][i - q] == t[q..][i - q];
    }
  }

  lemma DataOfMove<T(0)>(s: seq<Elem<T>>, i: nat, k: nat)
    requires k <= i < |s|
    ensures Data(Move(s, i, k)) == Move(Data(s), i, k)
  {
  }

  class List<T(0, !new)> {
    const head: Elem<T>
    const tail: Elem<T>
    ghost var nodes: seq<Elem<T>>
    ghost var repr: set<Elem<T>>  // the nodes as a set, for framing

    /** The pointers spell out `s`, forwards and backwards, with null at both ends. */
    static ghost predicate Chain(s: seq<Elem<T>>)
      reads s
    {
      && |s| >= 2
      && Distinct(s)
      && s[0].prev == null
      && s[|s| - 1].next == null
      && (forall i {:trigger s[i].next} :: 0 <= i < |s| - 1 ==> s[i].next == s[i + 1])
      && (forall i {:trigger s[i].prev} :: 0 < i < |s| ==> s[i].prev == s[i - 1])
    }

    /** A nonempty stretch of elements linked to each other in order. */
    static ghost predicate Segment(s: seq<Elem<T>>)
      reads s
    {
      && s != []
      && Distinct(s)
      && (forall i {:trigger s[i].next} :: 0 <= i < |s| - 1 ==> s[i].next == s[i + 1])
      && (forall i {:trigger s[i].prev} :: 0 < i < |s| ==> s[i].prev == s[i - 1])
    }

    ghost predicate Valid()
      reads this, repr
    {
      && (forall i :: 0 <= i < |nodes| ==> nodes[i] in repr)
      && Chain(nodes)
      && nodes[0] == head
      && nodes[|nodes| - 1] == tail
    }

    /** The elements of the list, without the headers. */
    ghost function Elems(): (s: seq<Elem<T>>)
      requires |nodes| >= 2
      reads this
      ensures |s| == |nodes| - 2
    {
      nodes[1..|nodes| - 1]
    }

    constructor Init()
      ensures Valid() && Elems() == [] && fresh(head) && fresh(tail)
    {
      var h := new Elem<T>.Header();
      var t := new Elem<T>.Header();
      h.prev := null;
      h.next := t;
      t.prev := h;
      t.next := null;
      head, tail := h, t;
      nodes, repr := [h, t], {h, t};
    }

    method Insert(before: Elem<T>, elem: Elem<T>, ghost k: nat)
      requires Valid() && 1 <= k < |nodes| && nodes[k] == before
      requires elem !in nodes
      modifies this, repr, elem
      ensures Valid() && nodes == InsertAt(old(nodes), k, elem) && repr == old(repr) + {elem}
    {
      assert before.IsInterior() || before.IsTail();
      repr := repr + {elem};
      Attach(before, elem, elem, [elem], k);
    }

    method Remove(elem: Elem<T>, ghost k: nat) returns (after: Elem<T>)
      requires Valid() && 1 <= k < |nodes| - 1 && nodes[k] == elem
      modifies this, repr
      ensures Valid() && nodes == old(nodes)[..k] + old(nodes)[k + 1..] && repr == old(repr) - {elem}
      ensures after == nodes[k]
    {
      assert elem.IsInterior();
      elem.prev.next := elem.next;
      elem.next.prev := elem.prev;
      after := elem.next;
      nodes, repr := nodes[..k] + nodes[k + 1..], repr - {elem};
    }

    /** Takes the elements from `first` up to `last` (exclusive) out and puts them back before
        `before`, which must not be among them. */
    method Splice(before: Elem<T>, first: Elem<T>, last: Elem<T>, ghost k: nat, ghost i: nat, ghost j: nat)
      requires Valid() && 1 <= k < |nodes| && 1 <= i <= j < |nodes|
      requires nodes[k] == before && nodes[i] == first && nodes[j] == last
      requires i == j || k < i || j <= k
      modifies this, repr
      ensures Valid() && repr == old(repr)
      ensures nodes == Spliced(old(nodes), k, i, j)
    {
      assert before.IsInterior() || before.IsTail();
      if first == last {
        return;
      }
      var last' := last.prev;
      ghost var s := nodes;
      assert nodes[j - 1] == last' && first.IsInterior() && last'.IsInterior();
      Detach(first, last', i, j);
      SplicedInTwo(s, k, i, j);
      Attach(before, first, last', s[i..j], if k < i then k else k - (j - i));
    }

    /** The same with the elements of another list. */
    method SpliceFrom(before: Elem<T>, other: List<T>, first: Elem<T>, last: Elem<T>, ghost k: nat, ghost i: nat, ghost j: nat)
      requires Valid() && other.Valid() && other != this && repr !! other.repr
      requires 1 <= k < |nodes| && 1 <= i <= j < |other.nodes|
      requires nodes[k] == before && other.nodes[i] == first && other.nodes[j] == last
      modifies this, repr, other, other.repr
      ensures Valid() && other.Valid() && repr !! other.repr && repr + other.repr == old(repr + other.repr)
      ensures nodes == old(nodes)[..k] + old(other.nodes)[i..j] + old(nodes)[k..]
      ensures other.nodes == old(other.nodes)[..i] + old(other.nodes)[j..]
    {
      if first == last {
        return;
      }
      var last' := last.prev;
      ghost var seg := other.Release(first, last', i, j);
      Adopt(before, first, last', seg, k);
    }

    /** The elements leave this list for good. */
    method Release(first: Elem<T>, last: Elem<T>, ghost i: nat, ghost j: nat) returns (ghost seg: seq<Elem<T>>)
      requires Valid() && 1 <= i < j < |nodes|
      requires nodes[i] == first && nodes[j - 1] == last
      modifies this, repr
      ensures Valid() && nodes == old(nodes)[..i] + old(nodes)[j..] && seg == old(nodes)[i..j] && Segment(seg)
      ensures (forall x :: x in seg ==> x in old(repr)) && repr == old(repr) - (set x | x in seg)
    {
      seg := nodes[i..j];
      Detach(first, last, i, j);
      repr := repr - (set x | x in seg);
    }

    /** Detached elements enter this list. */
    method Adopt(before: Elem<T>, first: Elem<T>, last: Elem<T>, ghost seg: seq<Elem<T>>, ghost k: nat)
      requires Valid() && 1 <= k < |nodes| && nodes[k] == before
      requires Segment(seg) && seg[0] == first && seg[|seg| - 1] == last && forall x :: x in seg ==> x !in repr
      modifies this, repr, seg
      ensures Valid() && nodes == old(nodes)[..k] + seg + old(nodes)[k..] && repr == old(repr) + (set x | x in seg)
    {
      repr := repr + (set x | x in seg);
      Attach(before, first, last, seg, k);
    }

    /** The first half of a splice: closes the gap around `first` .. `last` (inclusive). */
    method Detach(first: Elem<T>, last: Elem<T>, ghost i: nat, ghost j: nat)
      requires Valid() && 1 <= i < j < |nodes|
      requires nodes[i] == first && nodes[j - 1] == last
      modifies this, repr
      ensures Valid() && nodes == old(nodes)[..i] + old(nodes)[j..] && repr == old(repr)
      ensures Segment(old(nodes)[i..j])
    {
      first.prev.next := last.next;
      last.next.prev := first.prev;
      nodes := nodes[..i] + nodes[j..];
    }

    /** The second half of a splice: links a detached segment in before `before`. */
    method Attach(before: Elem<T>, first: Elem<T>, last: Elem<T>, ghost seg: seq<Elem<T>>, ghost k: nat)
      requires Valid() && 1 <= k < |nodes| && nodes[k] == before
      requires Segment(seg) && seg[0] == first && seg[|seg| - 1] == last
      requires forall x, y :: 0 <= x < |seg| && 0 <= y < |nodes| ==> seg[x] != nodes[y]
      requires forall x :: 0 <= x < |seg| ==> seg[x] in repr
      modifies this, repr
      ensures Valid() && repr == old(repr) && nodes == old(nodes)[..k] + seg + old(nodes)[k..]
    {
      ghost var r := WithSegment(nodes, k, seg);
      first.prev := before.prev;
      last.next := before;
      before.prev.next := first;
      before.prev := last;
      nodes := r;
    }

    /** Inserts `elem` before the first greater element; a sorted list stays sorted. */
    method InsertOrdered(elem: Elem<T>, less: (T, T) -> bool)
      requires Valid() && elem !in nodes
      modifies this, repr, elem
      ensures Valid() && repr == old(repr) + {elem}
      ensures |nodes| > 2
      ensures Elems() == InsertAt(old(Elems()), InsertionPoint(Data(old(Elems())), elem.data, less), elem)
    {
      ghost var d := Data(Elems());
      var e := head.next;
      ghost var k: nat := 0;
      while e != tail && !less(elem.data, e.data)
        invariant k <= |d| && nodes[k + 1] == e
        invariant forall i :: 0 <= i < k ==> !less(elem.data, d[i])
        decreases |d| - k
      {
        e, k := e.next, k + 1;
      }
      InsertionPointUnique(d, elem.data, less, k);
      InsertedElems(nodes, k, elem);
      Insert(e, elem, k + 1);
    }

    /** Exchanges the two pointers of every element, headers excepted. */
    method SwapLinks()
      requires Valid()
      modifies repr
      ensures forall i {:trigger nodes[i].prev} :: 1 <= i < |nodes| - 1 ==> nodes[i].prev == nodes[i + 1]
      ensures forall i {:trigger nodes[i].next} :: 1 <= i < |nodes| - 1 ==> nodes[i].next == nodes[i - 1]
      ensures head.next == nodes[1] && head.prev == null && tail.next == null && tail.prev == nodes[|nodes| - 2]
    {
      ghost var s, n := nodes, |nodes| - 1;
      var e := head.next;
      ghost var m: nat := 1;
      while e != tail
        invariant 1 <= m <= n && s[m] == e && nodes == s
        invariant forall i {:trigger s[i].prev} :: 1 <= i < m ==> s[i].prev == s[i + 1]
        invariant forall i {:trigger s[i].next} :: 1 <= i < m ==> s[i].next == s[i - 1]
        invariant forall i {:trigger s[i].prev} :: m <= i <= n ==> s[i].prev == s[i - 1]
        invariant forall i {:trigger s[i].next} :: m <= i < n ==> s[i].next == s[i + 1]
        invariant head.next == s[1] && head.prev == null && tail.next == null
        decreases n - m
      {
        e.prev, e.next := e.next, e.prev;
        e, m := e.prev, m + 1;
      }
    }

    /** Reverses the list by exchanging the two pointers of every element. */
    method Reverse()
      requires Valid()
      modifies this, repr
      ensures Valid() && repr == old(repr) && |nodes| == |old(nodes)|
      ensures forall i :: 0 <= i < |Elems()| ==> Elems()[i] == old(Elems())[|Elems()| - 1 - i]
    {
      if head.next == tail {
        return;
      }
      ghost var s, n := nodes, |nodes| - 1;
      SwapLinks();
      head.next, tail.prev := tail.prev, head.next;
      var first, last := head.next, tail.prev;
      assert first == s[n - 1] && last == s[1];
      var t := first.prev;
      assert t == tail && last.next == head;
      first.prev := last.next;
      last.next := t;
      nodes := Mirrored(s);
    }

    /** The end of the run of nondecreasing elements that starts at `a`, the p-th element. */
    method FindEndOfRun(a: Elem<T>, b: Elem<T>, less: (T, T) -> bool, ghost p: nat, ghost q: nat)
      returns (r: Elem<T>, ghost m: nat)
      requires Valid() && StrictWeak(less)
      requires p < q <= |Elems()| && nodes[p + 1] == a && nodes[q + 1] == b
      ensures p < m <= q && nodes[m + 1] == r
      ensures Sorted(Data(Elems())[p..m], less)
      ensures m < q ==> less(Elems()[m].data, Elems()[m - 1].data)
    {
      ghost var d := Data(Elems());
      r, m := a.next, p + 1;
      while r != b && !less(r.data, r.prev.data)
        invariant p < m <= q && nodes[m + 1] == r
        invariant Sorted(d[p..m], less)
        decreases q - m
      {
        assert r == Elems()[m];
        assert nodes[m + 1].prev == nodes[m] == Elems()[m - 1];
        assert r.data == d[m] && r.prev.data == d[m - 1];
        SortedExtend(d[p..m], d[m], less);
        assert d[p..m + 1] == d[p..m] + [d[m]];
        r, m := r.next, m + 1;
      }
    }

    /** One step of the merge: the i-th element is spliced in before the k-th. */
    method MoveBefore(before: Elem<T>, elem: Elem<T>, ghost k: nat, ghost i: nat)
      requires Valid() && k < i < |Elems()| && nodes[k + 1] == before && nodes[i + 1] == elem
      modifies this, repr
      ensures Valid() && Elems() == Move(old(Elems()), i, k) && repr == old(repr)
      ensures |nodes| == |old(nodes)| && nodes[k + 2] == before
      ensures forall x :: i + 1 < x < |nodes| ==> nodes[x] == old(nodes)[x]
    {
      SplicedOne(nodes, k, i);
      Splice(before, elem, elem.next, k + 1, i + 1, i + 2);
    }

    /** The body of the merge loop: `a` advances, or `b`'s element is spliced in before it. */
    method MergeStep(a: Elem<T>, b: Elem<T>, less: (T, T) -> bool, ghost es0: seq<Elem<T>>,
                     ghost lo: nat, ghost k: nat, ghost i: nat, ghost hi: nat,
                     ghost orig: seq<Elem<T>>, ghost moves: Moves)
      returns (a': Elem<T>, b': Elem<T>, ghost k': nat, ghost i': nat, ghost moves': Moves)
      requires Valid() && StrictWeak(less) && k < i < hi < |nodes| - 1
      requires nodes[k + 1] == a && nodes[i + 1] == b
      requires MergeState(es0, Elems(), lo, k, i, hi, orig, moves, less)
      modifies this, repr
      ensures Valid() && repr == old(repr) && |nodes| == |old(nodes)|
      ensures k' == k + 1 && i <= i' <= hi && k' <= i'
      ensures nodes[k' + 1] == a' && nodes[i' + 1] == b' && nodes[hi + 1] == old(nodes)[hi + 1]
      ensures MergeState(es0, Elems(), lo, k', i', hi, orig, moves', less)
    {
      if !less(b.data, a.data) {
        MergeStateKeep(es0, Elems(), lo, k, i, hi, orig, moves, less);
        return a.next, b, k + 1, i, moves;
      }
      b', moves' := TakeStep(a, b, less, es0, lo, k, i, hi, orig, moves);
      return a, b', k + 1, i + 1, moves';
    }

    /** The step in which `b`'s element comes first. */
    method TakeStep(a: Elem<T>, b: Elem<T>, less: (T, T) -> bool, ghost es0: seq<Elem<T>>,
                    ghost lo: nat, ghost k: nat, ghost i: nat, ghost hi: nat,
                    ghost orig: seq<Elem<T>>, ghost moves: Moves)
      returns (b': Elem<T>, ghost moves': Moves)
      requires Valid() && StrictWeak(less) && k < i < hi < |nodes| - 1
      requires nodes[k + 1] == a && nodes[i + 1] == b && less(b.data, a.data)
      requires MergeState(es0, Elems(), lo, k, i, hi, orig, moves, less)
      modifies this, repr
      ensures Valid() && repr == old(repr) && |nodes| == |old(nodes)|
      ensures nodes[k + 2] == a && nodes[i + 2] == b' && nodes[hi + 1] == old(nodes)[hi + 1]
      ensures MergeState(es0, Elems(), lo, k + 1, i + 1, hi, orig, moves', less)
    {
      MergeStateMove(es0, Elems(), lo, k, i, hi, orig, moves, less);
      b' := TakeSecond(a, b, k, i, hi);
      moves' := moves + [(i, k)];
    }

    /** Moves `b` in front of `a`; returns the element that followed `b`. */
    method TakeSecond(a: Elem<T>, b: Elem<T>, ghost k: nat, ghost i: nat, ghost hi: nat) returns (b': Elem<T>)
      requires Valid() && k < i < hi < |nodes| - 1 && nodes[k + 1] == a && nodes[i + 1] == b
      modifies this, repr
      ensures Valid() && repr == old(repr) && |nodes| == |old(nodes)|
      ensures Elems() == Move(old(Elems()), i, k)
      ensures nodes[k + 2] == a && nodes[i + 2] == b' && nodes[hi + 1] == old(nodes)[hi + 1]
    {
      b' := b.next;
      MoveBefore(a, b'.prev, k, i);
    }

    /** Merges the runs `lo..mid` and `mid..hi` in place, by splicing. */
    method InplaceMerge(a0: Elem<T>, a1b0: Elem<T>, b1: Elem<T>, less: (T, T) -> bool,
                        ghost lo: nat, ghost mid: nat, ghost hi: nat,
                        ghost orig: seq<Elem<T>>, ghost moves: Moves)
      returns (ghost moves': Moves)
      requires Valid() && StrictWeak(less) && lo < mid < hi <= |Elems()|
      requires nodes[lo + 1] == a0 && nodes[mid + 1] == a1b0 && nodes[hi + 1] == b1
      requires Sorted(Data(Elems())[lo..mid], less) && Sorted(Data(Elems())[mid..hi], less)
      requires Traced(orig, Elems(), moves, less)
      modifies this, repr
      ensures Valid() && Traced(orig, Elems(), moves', less) && repr == old(repr)
      ensures Elems()[..lo] == old(Elems())[..lo] && Elems()[hi..] == old(Elems())[hi..]
      ensures |nodes| == |old(nodes)| && nodes[hi + 1] == b1
      ensures Sorted(Data(Elems())[lo..hi], less)
    {
      moves' := moves;
      var a, b := a0, a1b0;
      ghost var es0 := Elems();
      ghost var k: nat, i: nat := lo, mid;
      while a != b && b != b1
        invariant Valid() && |nodes| == |old(nodes)| && repr == old(repr)
        invariant MergeState(es0, Elems(), lo, k, i, hi, orig, moves', less)
        invariant k <= i <= hi < |nodes| - 1
        invariant nodes[k + 1] == a && nodes[i + 1] == b && nodes[hi + 1] == b1
        decreases hi - k
      {
        a, b, k, i, moves' := MergeStep(a, b, less, es0, lo, k, i, hi, orig, moves');
      }
      MergeDone(Data(Elems()), lo, k, i, hi, less);
    }

    /** Sorts the list by repeated passes that merge adjacent natural runs; each pass that leaves
        more than one run has strictly fewer descents than before. */
    method Sort(less: (T, T) -> bool) returns (ghost perm: seq<nat>)
      requires Valid() && StrictWeak(less)
      modifies this, repr
      ensures Valid() && repr == old(repr)
      ensures |Elems()| == |old(Elems())| == |perm|
      ensures forall i :: 0 <= i < |perm| ==> perm[i] < |perm| && Elems()[i] == old(Elems())[perm[i]]
      ensures IsStableSort(Data(old(Elems())), Data(Elems()), perm, less)
      ensures Data(Elems()) == InsertionSort(Data(old(Elems())), less).0
    {
      ghost var orig := Elems();
      ghost var moves: Moves := [];
      var outputRuns := 2;
      while outputRuns > 1
        invariant Valid() && repr == old(repr) && Traced(orig, Elems(), moves, less)
        invariant outputRuns <= 1 ==> Descents(Data(Elems()), less) == 0
        decreases Descents(Data(Elems()), less), outputRuns
      {
        outputRuns, moves := Pass(less, orig, moves);
      }
      perm := SortDone(orig, Elems(), moves, less);
    }

    /** The body of the pass: merges the run at `a0` with the one after it, unless it is the
        last (`only`). */
    method MergeNextRuns(a0: Elem<T>, less: (T, T) -> bool, ghost d0: seq<T>, ghost p: nat, ghost runs: nat,
                         ghost orig: seq<Elem<T>>, ghost moves: Moves)
      returns (only: bool, b1: Elem<T>, ghost hi: nat, ghost moves': Moves)
      requires Valid() && StrictWeak(less) && p < |Elems()| && nodes[p + 1] == a0
      requires Traced(orig, Elems(), moves, less) && PassState(d0, Data(Elems()), p, runs, less)
      modifies this, repr
      ensures Valid() && repr == old(repr) && |nodes| == |old(nodes)|
      ensures only ==> nodes == old(nodes) && Descents(Data(Elems()), less) <= runs
                       && (runs > 0 ==> Descents(Data(Elems()), less) < Descents(d0, less))
      ensures !only ==> p < hi < |nodes| - 1 && nodes[hi + 1] == b1
                        && Traced(orig, Elems(), moves', less) && PassState(d0, Data(Elems()), hi, runs + 1, less)
    {
      ghost var d := Data(Elems());
      var a1b0, mid := FindEndOfRun(a0, tail, less, p, |d|);
      if a1b0 == tail {
        assert d[p..mid] == d[p..];
        PassEndsOnOneRun(d0, d, p, runs, less);
        return true, a1b0, mid, moves;
      }
      only := false;
      b1, hi, moves' := MergeWithNext(a0, a1b0, less, d0, p, mid, runs, orig, moves);
    }

    /** Merges the run at `p` with the one that starts at `mid`. */
    method MergeWithNext(a0: Elem<T>, a1b0: Elem<T>, less: (T, T) -> bool, ghost d0: seq<T>, ghost p: nat, ghost mid: nat,
                         ghost runs: nat, ghost orig: seq<Elem<T>>, ghost moves: Moves)
      returns (b1: Elem<T>, ghost hi: nat, ghost moves': Moves)
      requires Valid() && StrictWeak(less) && p < mid < |Elems()| && nodes[p + 1] == a0 && nodes[mid + 1] == a1b0
      requires Sorted(Data(Elems())[p..mid], less) && less(Elems()[mid].data, Elems()[mid - 1].data)
      requires Traced(orig, Elems(), moves, less) && PassState(d0, Data(Elems()), p, runs, less)
      modifies this, repr
      ensures Valid() && repr == old(repr) && |nodes| == |old(nodes)|
      ensures p < hi < |nodes| - 1 && nodes[hi + 1] == b1
      ensures Traced(orig, Elems(), moves', less) && PassState(d0, Data(Elems()), hi, runs + 1, less)
    {
      ghost var d := Data(Elems());
      b1, hi := FindEndOfRun(a1b0, tail, less, mid, |d|);
      moves' := InplaceMerge(a0, a1b0, b1, less, p, mid, hi, orig, moves);
      DataOfSlices(old(Elems()), Elems(), p, hi);
      PassMergesTwoRuns(d0, d, Data(Elems()), p, mid, hi, runs, less);
    }

    /** One pass over the list; returns the number of runs that it wrote. */
    method Pass(less: (T, T) -> bool, ghost orig: seq<Elem<T>>, ghost moves: Moves)
      returns (outputRuns: nat, ghost moves': Moves)
      requires Valid() && StrictWeak(less) && Traced(orig, Elems(), moves, less)
      modifies this, repr
      ensures Valid() && repr == old(repr) && Traced(orig, Elems(), moves', less)
      ensures outputRuns <= 1 ==> Descents(Data(Elems()), less) == 0
      ensures outputRuns > 1 ==> Descents(Data(Elems()), less) < Descents(Data(old(Elems())), less)
    {
      moves', outputRuns := moves, 0;
      ghost var d0 := Data(Elems());
      ghost var p: nat := 0;
      var a0 := head.next;
      while a0 != tail
        invariant Valid() && repr == old(repr) && Traced(orig, Elems(), moves', less)
        invariant |nodes| == |old(nodes)| && p < |nodes| - 1 && nodes[p + 1] == a0
        invariant PassState(d0, Data(Elems()), p, outputRuns, less)
        decreases |nodes| - p
      {
        outputRuns := outputRuns + 1;
        var only, b1, hi, moves'' := MergeNextRuns(a0, less, d0, p, outputRuns - 1, orig, moves');
        if only {
          break;
        }
        a0, p, moves' := b1, hi, moves'';
      }
      if a0 == tail {
        PassEndsOnPair(d0, Data(Elems()), outputRuns, less);
      }
    }
  }

  /** The elements `es` come from `orig` by legal moves. */
  ghost predicate Traced<T(0)>(orig: seq<Elem<T>>, es: seq<Elem<T>>, moves: Moves, less: (T, T) -> bool) {
    && es == Replay(orig, moves)
    && Legal(Data(orig), moves, less)
  }

  lemma {:induction false} DataOfReplay<T(0)>(s: seq<Elem<T>>, moves: Moves)
    ensures Data(Replay(s, moves)) == Replay(Data(s), moves)
  {
    if moves != [] {
      var n := |moves| - 1;
      DataOfReplay(s, moves[..n]);
      var (i, k) := moves[n];
      if k <= i < |s| {
        DataOfMove(Replay(s, moves[..n]), i, k);
      }
    }
  }

  lemma {:induction false} ReplayIsPermute<X>(s: seq<X>, moves: Moves, perm: seq<nat>)
    requires perm == Replay(Identity(|s|), moves)
    ensures forall x :: 0 <= x < |s| ==> perm[x] < |s| && Replay(s, moves)[x] == s[perm[x]]
  {
    if moves != [] {
      var n := |moves| - 1;
      var p := Replay(Identity(|s|), moves[..n]);
      ReplayIsPermute(s, moves[..n], p);
      var (i, k) := moves[n];
      if k <= i < |s| {
        MovePermutes(s, Replay(s, moves[..n]), p, i, k);
      }
    }
  }

  lemma MovePermutes<X>(s: seq<X>, r: seq<X>, perm: seq<nat>, i: nat, k: nat)
    requires |r| == |perm| == |s| && k <= i < |r|
    requires forall x :: 0 <= x < |s| ==> perm[x] < |s| && r[x] == s[perm[x]]
    ensures forall x :: 0 <= x < |s| ==> Move(perm, i, k)[x] < |s| && Move(r, i, k)[x] == s[Move(perm, i, k)[x]]
  {
    forall x | 0 <= x < |s|
      ensures Move(perm, i, k)[x] < |s| && Move(r, i, k)[x] == s[Move(perm, i, k)[x]]
    {
      var x0 := if x < k || i < x then x else if x == k then i else x - 1;
      assert Move(perm, i, k)[x] == perm[x0] && Move(r, i, k)[x] == r[x0];
    }
  }

  /** What the trace of a finished sort tells. */
  lemma SortDone<T(0, !new)>(orig: seq<Elem<T>>, es: seq<Elem<T>>, moves: Moves, less: (T, T) -> bool)
    returns (perm: seq<nat>)
    requires StrictWeak(less) && Traced(orig, es, moves, less) && Descents(Data(es), less) == 0
    ensures |es| == |orig| == |perm|
    ensures forall i :: 0 <= i < |es| ==> perm[i] < |es| && es[i] == orig[perm[i]]
    ensures IsStableSort(Data(orig), Data(es), perm, less)
    ensures Data(es) == InsertionSort(Data(orig), less).0
  {
    perm := Replay(Identity(|orig|), moves);
    ReplayIsPermute(orig, moves, perm);
    DataOfReplay(orig, moves);
    LegalMovesAreStable(Data(orig), moves, less);
    NoDescentsIsSorted(Data(es), less);
    StableSortUnique(Data(orig), Data(es), perm, less);
  }

  lemma TracedMove<T(0)>(orig: seq<Elem<T>>, es: seq<Elem<T>>, moves: Moves, less: (T, T) -> bool,
                         i: nat, k: nat)
    requires k <= i < |es| && Traced(orig, es, moves, less)
    requires forall m :: k <= m < i ==> less(Data(es)[i], Data(es)[m])
    ensures Traced(orig, Move(es, i, k), moves + [(i, k)], less)
  {
    DataOfReplay(orig, moves);
    LegalExtend(Data(orig), moves, less, i, k);
    assert (moves + [(i, k)])[..|moves|] == moves;
  }

  /** The state of the merge loop; `es0` is the list when the merge began. */
  ghost predicate MergeState<T(0)>(es0: seq<Elem<T>>, es: seq<Elem<T>>, lo: nat, k: nat, i: nat, hi: nat,
                                   orig: seq<Elem<T>>, moves: Moves, less: (T, T) -> bool)
  {
    && Traced(orig, es, moves, less)
    && Merging(Data(es), lo, k, i, hi, less)
    && |es| == |es0|
    && es[..lo] == es0[..lo]
    && es[hi..] == es0[hi..]
  }

  lemma MergeStateKeep<T(0, !new)>(es0: seq<Elem<T>>, es: seq<Elem<T>>, lo: nat, k: nat, i: nat, hi: nat,
                                   orig: seq<Elem<T>>, moves: Moves, less: (T, T) -> bool)
    requires StrictWeak(less) && MergeState(es0, es, lo, k, i, hi, orig, moves, less)
    requires k < i < hi && !less(es[i].data, es[k].data)
    ensures MergeState(es0, es, lo, k + 1, i, hi, orig, moves, less)
  {
    MergeKeepsFront(Data(es), lo, k, i, hi, less);
  }

  lemma MergeStateMove<T(0, !new)>(es0: seq<Elem<T>>, es: seq<Elem<T>>, lo: nat, k: nat, i: nat, hi: nat,
                                   orig: seq<Elem<T>>, moves: Moves, less: (T, T) -> bool)
    requires StrictWeak(less) && MergeState(es0, es, lo, k, i, hi, orig, moves, less)
    requires k < i < hi && less(es[i].data, es[k].data)
    ensures MergeState(es0, Move(es, i, k), lo, k + 1, i + 1, hi, orig, moves + [(i, k)], less)
  {
    MergeTakesSecond(Data(es), lo, k, i, hi, less);
    TracedMove(orig, es, moves, less, i, k);
    DataOfMove(es, i, k);
    MoveKeepsEnds(es, i, k, lo, hi);
  }

  lemma MoveKeepsEnds<X>(s: seq<X>, i: nat, k: nat, lo: nat, hi: nat)
    requires lo <= k <= i < hi <= |s|
    ensures var r := Move(s, i, k);
            |r| == |s| && r[..lo] == s[..lo] && r[hi..] == s[hi..]
  {
  }

  /** Splicing one node is a move of the elements between the headers. */
  lemma SplicedOne<X>(s: seq<X>, k: nat, i: nat)
    requires k < i && i + 2 < |s|
    ensures var r := Spliced(s, k + 1, i + 1, i + 2);
            |r| == |s| && r[1..|r| - 1] == Move(s[1..|s| - 1], i, k)
  {
    var e := s[1..|s| - 1];
    var r := Spliced(s, k + 1, i + 1, i + 2);
    assert |r| == |s| && |Move(e, i, k)| == |e|;
    forall x | 0 <= x < |e|
      ensures r[x + 1] == Move(e, i, k)[x]
    {
      FourParts(s[..k + 1], s[i + 1..i + 2], s[k + 1..i + 1], s[i + 2..], x + 1);
      FourParts(e[..k], [e[i]], e[k..i], e[i + 1..], x);
      if x < k {
        assert s[..k + 1][x + 1] == e[..k][x];
      } else if x == k {
        assert s[i + 1..i + 2][0] == e[i];
      } else if x <= i {
        assert s[k + 1..i + 1][x - k - 1] == e[k..i][x - k - 1];
      } else {
        assert s[i + 2..][x - i - 1] == e[i + 1..][x - i - 1];
      }
    }
  }

  lemma FourParts<X>(a: seq<X>, b: seq<X>, c: seq<X>, d: seq<X>, x: nat)
    requires x < |a| + |b| + |c| + |d|
    ensures (a + b + c + d)[x] ==
            if x < |a| then a[x]
            else if x < |a| + |b| then b[x - |a|]
            else if x < |a| + |b| + |c| then c[x - |a| - |b|]
            else d[x - |a| - |b| - |c|]
  {
  }

  lemma InsertedElems<X>(s: seq<X>, k: nat, x: X)
    requires k + 1 < |s|
    ensures var r := InsertAt(s, k + 1, x);
            |r| == |s| + 1 && r[1..|r| - 1] == InsertAt(s[1..|s| - 1], k, x)
  {
  }

  lemma SplicedInTwo<X>(s: seq<X>, k: nat, i: nat, j: nat)
    requires k < |s| && i < j < |s| && (k < i || j <= k)
    ensures var t, m := s[..i] + s[j..], if k < i then k else k - (j - i);
            t[..m] + s[i..j] + t[m..] == Spliced(s, k, i, j)
  {
    var t := s[..i] + s[j..];
    if k < i {
      assert t[..k] == s[..k] && t[k..] == s[k..i] + s[j..];
    } else {
      var m := k - (j - i);
      assert t[..m] == s[..i] + s[j..k] && t[m..] == s[k..];
    }
  }

  ghost predicate Distinct<X>(s: seq<X>) {
    forall i, j :: 0 <= i < j < |s| ==> s[i] != s[j]
  }

  /** `seg` put in before position `k`. */
  ghost function WithSegment<X>(s: seq<X>, k: nat, seg: seq<X>): (r: seq<X>)
    requires 1 <= k < |s| && Distinct(s) && Distinct(seg)
    requires forall x, y :: 0 <= x < |seg| && 0 <= y < |s| ==> seg[x] != s[y]
    ensures r == s[..k] + seg + s[k..] && Distinct(r)
    ensures forall i {:trigger r[i]} :: 0 <= i < |r| ==>
              r[i] == if i < k then s[i] else if i < k + |seg| then seg[i - k] else s[i - |seg|]
  {
    var r := s[..k] + seg + s[k..];
    assert forall i {:trigger r[i]} :: 0 <= i < |r| ==>
      r[i] == if i < k then s[i] else if i < k + |seg| then seg[i - k] else s[i - |seg|];
    r
  }

  /** Everything between the first and the last, backwards. */
  ghost function Mirrored<X>(s: seq<X>): (r: seq<X>)
    requires |s| >= 2 && Distinct(s)
    ensures |r| == |s| && Distinct(r)
    ensures forall i {:trigger r[i]} :: 0 <= i < |s| ==> r[i] == if i == 0 || i == |s| - 1 then s[i] else s[|s| - 1 - i]
  {
    seq(|s|, i requires 0 <= i < |s| => if i == 0 || i == |s| - 1 then s[i] else s[|s| - 1 - i])
  }

  ghost function Spliced<X>(s: seq<X>, k: nat, i: nat, j: nat): (r: seq<X>)
    requires k < |s| && i <= j < |s|
    requires i == j || k < i || j <= k
  {
    if i == j then s
    else if k < i then s[..k] + s[i..j] + s[k..i] + s[j..]
    else s[..i] + s[j..k] + s[i..j] + s[k..]
  }
}
