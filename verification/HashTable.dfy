/**
 The hash table of pintos-kaist/lib/kernel/hash.c: buckets of elements, a bucket count that stays a
 power of two, and a rehash that may fail for want of memory.

 Elements are compared only through `less`: two elements are the same when neither is less than
 the other.
 */
module HashTable {
  import opened Wrappers
  import opened Arithmetic
  import opened Bits

  // ---------------------------------------------------------------------------------
  // Bits

  ghost predicate IsPow2(x: nat) {
    exists k: nat :: x == Pow2(k)
  }

  function TurnOffLeast1Bit(x: nat): nat
    requires x > 0
  {
    BitAnd(x, x - 1)
  }

  predicate IsPowerOf2(x: nat) {
    x != 0 && TurnOffLeast1Bit(x) == 0
  }

  lemma {:induction false} AndSelf(a: nat)
    ensures BitAnd(a, a) == a
  {
    if a > 0 {
      AndSelf(a / 2);
    }
  }

  lemma {:induction false} MaskSplits(x: nat, k: nat, p: nat) returns (q: nat, b: nat)
    requires p == Pow2(k)
    ensures b == BitAnd(x, p - 1) && x == q * p + b && b < p
  {
    if k == 0 {
      q, b := x, 0;
    } else if x == 0 {
      q, b := 0, 0;
    } else {
      var h := Pow2(k - 1);
      var c;
      q, c := MaskSplits(x / 2, k - 1, h);
      MaskStep(x, h);
      b := 2 * c + x % 2;
      DoubleUp(x, q, h, c);
    }
  }

  lemma DoubleUp(x: nat, q: nat, h: nat, c: nat)
    requires x / 2 == q * h + c && c < h
    ensures x == q * (2 * h) + (2 * c + x % 2) && 2 * c + x % 2 < 2 * h
  {
    var t := q * h;
    assert q * (2 * h) == 2 * t;
  }

  lemma MaskStep(x: nat, p: nat)
    requires p > 0 && x > 0
    ensures BitAnd(x, 2 * p - 1) == 2 * BitAnd(x / 2, p - 1) + x % 2
  {
    assert (2 * p - 1) / 2 == p - 1 && (2 * p - 1) % 2 == 1;
  }

  /** Masking with one less than a power of two is the remainder. */
  lemma MaskIsMod(x: nat, p: nat)
    requires IsPow2(p)
    ensures p > 0 && BitAnd(x, p - 1) == x % p
  {
    var k: nat :| p == Pow2(k);
    var q, b := MaskSplits(x, k, p);
    DivUnique(x, p, q);
    DivIsQuot(x, p);
  }

  lemma TurnOffCases(x: nat)
    requires x > 0
    ensures TurnOffLeast1Bit(x) == if x % 2 == 1 then x - 1 else 2 * TurnOffLeast1Bit(x / 2)
  {
    if x % 2 == 1 {
      AndSelf(x / 2);
    }
  }

  /** The largest power of two that is at most `n`. */
  ghost function FloorPow2(n: nat): (r: nat)
    requires n > 0
    ensures r > 0
  {
    if n == 1 then 1 else 2 * FloorPow2(n / 2)
  }

  lemma {:induction false} FloorPow2Bounds(n: nat)
    requires n > 0
    ensures FloorPow2(n) <= n < 2 * FloorPow2(n) && IsPow2(FloorPow2(n))
  {
    if n == 1 {
      assert Pow2(0) == 1;
    } else {
      FloorPow2Bounds(n / 2);
      var k: nat :| FloorPow2(n / 2) == Pow2(k);
      assert Pow2(k + 1) == FloorPow2(n);
    }
  }

  /** The test recognises powers of two, and turning off the lowest bit of anything else leaves the
      highest one. */
  lemma {:induction false} TurnOffKeepsTop(n: nat)
    requires n > 0
    ensures IsPowerOf2(n) <==> n == FloorPow2(n)
    ensures !IsPowerOf2(n) ==> 0 < TurnOffLeast1Bit(n) < n && FloorPow2(TurnOffLeast1Bit(n)) == FloorPow2(n)
  {
    TurnOffCases(n);
    if n > 1 {
      TurnOffKeepsTop(n / 2);
      FloorPow2Bounds(n / 2);
    }
  }

  /** The loop of rehash that rounds the wanted bucket count down to a power of two. */
  method RoundDown(n: nat) returns (r: nat)
    requires n > 0
    ensures IsPow2(r) && r <= n < 2 * r
  {
    r := n;
    TurnOffKeepsTop(r);
    while !IsPowerOf2(r)
      invariant r > 0 && FloorPow2(r) == FloorPow2(n)
      invariant IsPowerOf2(r) <==> r == FloorPow2(r)
      decreases r
    {
      TurnOffKeepsTop(r);
      r := TurnOffLeast1Bit(r);
      TurnOffKeepsTop(r);
    }
    FloorPow2Bounds(n);
  }

  // ---------------------------------------------------------------------------------
  // Buckets

  ghost predicate Same<T>(a: T, b: T, less: (T, T) -> bool) {
    !less(a, b) && !less(b, a)
  }

  /** What the table asks of its functions: a strict weak order, and equal hashes for equal
      elements. */
  ghost predicate CompatibleAt<T>(hash: T -> nat, less: (T, T) -> bool, a: T, b: T, c: T) {
    && !less(a, a)
    && (less(a, b) ==> !less(b, a))
    && (less(a, b) ==> less(a, c) || less(c, b))
    && (Same(a, b, less) ==> hash(a) == hash(b))
  }

  ghost predicate Compatible<T(!new)>(hash: T -> nat, less: (T, T) -> bool) {
    forall a, b, c {:trigger CompatibleAt(hash, less, a, b, c)} :: CompatibleAt(hash, less, a, b, c)
  }

  function Index<T>(hash: T -> nat, e: T, n: nat): nat
    requires n > 0
  {
    BitAnd(hash(e), n - 1)
  }

  ghost function Elements<T>(buckets: seq<seq<T>>): multiset<T> {
    if buckets == [] then multiset{}
    else Elements(buckets[..|buckets| - 1]) + multiset(buckets[|buckets| - 1])
  }

  lemma {:induction false} ElementsMember<T>(buckets: seq<seq<T>>, x: T)
    ensures x in Elements(buckets) <==> exists i :: 0 <= i < |buckets| && x in buckets[i]
  {
    if buckets != [] {
      var n := |buckets| - 1;
      ElementsMember(buckets[..n], x);
      if x in Elements(buckets[..n]) {
        var i :| 0 <= i < n && x in buckets[..n][i];
        assert x in buckets[i];
      }
      if i :| 0 <= i < |buckets| && x in buckets[i] {
        assert i < n ==> x in buckets[..n][i];
      }
    }
  }

  lemma {:induction false} ElementsUpdate<T>(buckets: seq<seq<T>>, i: nat, b: seq<T>)
    requires i < |buckets|
    ensures multiset(buckets[i]) <= Elements(buckets)
    ensures Elements(buckets[i := b]) == Elements(buckets) - multiset(buckets[i]) + multiset(b)
  {
    var n := |buckets| - 1;
    if i < n {
      ElementsUpdate(buckets[..n], i, b);
      assert buckets[i := b][..n] == buckets[..n][i := b];
    } else {
      assert buckets[i := b][..n] == buckets[..n];
    }
  }

  function EmptyBuckets<T>(n: nat): (r: seq<seq<T>>)
    ensures |r| == n && forall i :: 0 <= i < n ==> r[i] == []
  {
    seq(n, _ => [])
  }

  lemma {:induction false} ElementsOfEmpty<T>(buckets: seq<seq<T>>)
    requires forall i :: 0 <= i < |buckets| ==> buckets[i] == []
    ensures Elements(buckets) == multiset{}
  {
    if buckets != [] {
      ElementsOfEmpty(buckets[..|buckets| - 1]);
    }
  }

  /** Every element is in the bucket of its masked hash. */
  ghost predicate Placed<T>(buckets: seq<seq<T>>, hash: T -> nat) {
    && |buckets| > 0
    && forall i, j :: 0 <= i < |buckets| && 0 <= j < |buckets[i]| ==> Index(hash, buckets[i][j], |buckets|) == i
  }

  /** No two elements are the same, and none is there twice. */
  ghost predicate AllDifferent<T(!new)>(s: multiset<T>, less: (T, T) -> bool) {
    && (forall x {:trigger s[x]} :: x in s ==> s[x] == 1)
    && (forall x, y {:trigger Same(x, y, less)} :: x in s && y in s && Same(x, y, less) ==> x == y)
  }

  ghost predicate TableOk<T(!new)>(buckets: seq<seq<T>>, hash: T -> nat, less: (T, T) -> bool) {
    IsPow2(|buckets|) && Placed(buckets, hash) && AllDifferent(Elements(buckets), less)
  }

  lemma IndexInRange<T>(hash: T -> nat, e: T, n: nat)
    requires IsPow2(n)
    ensures n > 0 && Index(hash, e, n) < n && Index(hash, e, n) == hash(e) % n
  {
    MaskIsMod(hash(e), n);
  }

  /** Looking in one bucket is enough. */
  lemma OneBucketIsEnough<T(!new)>(buckets: seq<seq<T>>, hash: T -> nat, less: (T, T) -> bool, e: T)
    requires Compatible(hash, less) && TableOk(buckets, hash, less)
    ensures forall x :: x in Elements(buckets) && Same(x, e, less) ==>
              Index(hash, e, |buckets|) < |buckets| && x in buckets[Index(hash, e, |buckets|)]
  {
    forall x | x in Elements(buckets) && Same(x, e, less)
      ensures Index(hash, e, |buckets|) < |buckets| && x in buckets[Index(hash, e, |buckets|)]
    {
      ElementsMember(buckets, x);
      var i :| 0 <= i < |buckets| && x in buckets[i];
      var j :| 0 <= j < |buckets[i]| && buckets[i][j] == x;
      assert Index(hash, buckets[i][j], |buckets|) == i;
      assert CompatibleAt(hash, less, x, e, e);
    }
  }

  /** The bucket count that rehash aims for. */
  ghost predicate BestCount(n: nat, elemCnt: nat) {
    IsPow2(n) && var want := if elemCnt / 2 < 4 then 4 else elemCnt / 2; n <= want < 2 * n
  }

  class Table<T(!new, ==)> {
    const hash: T -> nat
    const less: (T, T) -> bool
    var buckets: seq<seq<T>>
    var elemCnt: nat

    ghost predicate Valid()
      reads this
    {
      Compatible(hash, less) && TableOk(buckets, hash, less) && elemCnt == |Elements(buckets)|
    }

    /** The abstract value: what is in the table. */
    ghost function Contents(): multiset<T>
      reads this
    {
      Elements(buckets)
    }

    /** hash_init, when there is memory for the four buckets. */
    constructor Init(hash: T -> nat, less: (T, T) -> bool)
      requires Compatible(hash, less)
      ensures Valid() && Contents() == multiset{} && elemCnt == 0 && |buckets| == 4
      ensures this.hash == hash && this.less == less
    {
      this.hash, this.less := hash, less;
      buckets, elemCnt := EmptyBuckets(4), 0;
      new;
      assert 4 == Pow2(2);
      EmptyTableOk(buckets, hash, less);
    }

    /** hash_clear without a destructor: the buckets stay, and what was in them is gone. */
    method Clear()
      requires Valid()
      modifies this
      ensures Valid() && Contents() == multiset{} && elemCnt == 0 && |buckets| == |old(buckets)|
    {
      var i, n := 0, |buckets|;
      while i < n
        invariant i <= n == |buckets| && forall j :: 0 <= j < i ==> buckets[j] == []
        invariant Compatible(hash, less) && IsPow2(n)
      {
        buckets := buckets[i := []];
        i := i + 1;
      }
      elemCnt := 0;
      EmptyTableOk(buckets, hash, less);
    }

    /** find_elem on the bucket of `e`; returns the position too. */
    method FindInBucket(e: T) returns (r: Option<T>, b: nat, p: nat)
      requires Valid()
      ensures b == Index(hash, e, |buckets|) < |buckets|
      ensures r.Some? ==> p < |buckets[b]| && buckets[b][p] == r.value
                          && r.value in Contents() && Same(r.value, e, less)
      ensures r.None? ==> forall x :: x in Contents() ==> !Same(x, e, less)
    {
      IndexInRange(hash, e, |buckets|);
      OneBucketIsEnough(buckets, hash, less, e);
      b, p := BitAnd(hash(e), |buckets| - 1), 0;
      var bucket := buckets[b];
      while p < |bucket|
        invariant 0 <= p <= |bucket|
        invariant forall j :: 0 <= j < p ==> !Same(bucket[j], e, less)
      {
        if !less(bucket[p], e) && !less(e, bucket[p]) {
          ElementsMember(buckets, bucket[p]);
          return Some(bucket[p]), b, p;
        }
        p := p + 1;
      }
      return None, b, p;
    }

    /** hash_find: the one element equal to `e`, if any. */
    method Find(e: T) returns (r: Option<T>)
      requires Valid()
      ensures r.Some? ==> r.value in Contents() && Same(r.value, e, less)
      ensures r.None? ==> forall x :: x in Contents() ==> !Same(x, e, less)
    {
      if elemCnt == 0 {
        assert Contents() == multiset{};
        return None;
      }
      var b, p;
      r, b, p := FindInBucket(e);
    }

    /** Moves every element of the old buckets to the front of its new one. */
    method MoveAll(n: nat) returns (moved: seq<seq<T>>)
      requires IsPow2(n)
      ensures |moved| == n && Placed(moved, hash) && Elements(moved) == Elements(buckets)
    {
      moved := EmptyBuckets(n);
      ElementsOfEmpty(moved);
      var i := 0;
      while i < |buckets|
        invariant 0 <= i <= |buckets| && |moved| == n > 0
        invariant Placed(moved, hash) && Elements(moved) == Elements(buckets[..i])
      {
        moved := MoveBucket(moved, buckets[i]);
        assert buckets[..i + 1][..i] == buckets[..i];
        i := i + 1;
      }
      assert buckets[..i] == buckets;
    }

    method MoveBucket(moved: seq<seq<T>>, bucket: seq<T>) returns (r: seq<seq<T>>)
      requires IsPow2(|moved|) && Placed(moved, hash)
      ensures |r| == |moved| && Placed(r, hash) && Elements(r) == Elements(moved) + multiset(bucket)
    {
      r := moved;
      var j := 0;
      while j < |bucket|
        invariant 0 <= j <= |bucket| && |r| == |moved| && Placed(r, hash)
        invariant Elements(r) == Elements(moved) + multiset(bucket[..j])
      {
        r := MoveOne(r, bucket[j]);
        assert bucket[..j + 1] == bucket[..j] + [bucket[j]];
        j := j + 1;
      }
      assert bucket[..j] == bucket;
    }

    method MoveOne(moved: seq<seq<T>>, x: T) returns (r: seq<seq<T>>)
      requires IsPow2(|moved|) && Placed(moved, hash)
      ensures |r| == |moved| && Placed(r, hash) && Elements(r) == Elements(moved) + multiset{x}
    {
      IndexInRange(hash, x, |moved|);
      var k := BitAnd(hash(x), |moved| - 1);
      r := moved[k := [x] + moved[k]];
      ElementsUpdate(moved, k, [x] + moved[k]);
      forall i, j | 0 <= i < |r| && 0 <= j < |r[i]|
        ensures Index(hash, r[i][j], |r|) == i
      {
        if i == k && j > 0 {
          assert r[i][j] == moved[i][j - 1];
        }
      }
    }

    /** rehash: nothing but the arrangement changes, and without memory not even that. */
    method Rehash(memory: bool)
      requires Valid()
      modifies this
      ensures Valid() && Contents() == old(Contents()) && elemCnt == old(elemCnt)
      ensures memory ==> BestCount(|buckets|, elemCnt) && elemCnt < 4 * |buckets|
      ensures !memory ==> buckets == old(buckets)
    {
      var want := elemCnt / 2;
      if want < 4 {
        want := 4;
      }
      var n := RoundDown(want);
      if n == |buckets| || !memory {
        return;
      }
      var moved := MoveAll(n);
      buckets := moved;
    }

    /** hash_insert: adds `e` unless an equal element is there, which is then returned. */
    method Insert(e: T, memory: bool) returns (found: Option<T>)
      requires Valid()
      modifies this
      ensures Valid()
      ensures found.Some? ==> found.value in old(Contents()) && Same(found.value, e, less) && Contents() == old(Contents())
      ensures found.None? ==> (forall x :: x in old(Contents()) ==> !Same(x, e, less))
                              && Contents() == old(Contents()) + multiset{e}
      ensures if memory then BestCount(|buckets|, elemCnt) && elemCnt < 4 * |buckets| else |buckets| == |old(buckets)|
    {
      var b, p;
      found, b, p := FindInBucket(e);
      if found.None? {
        Add(e, b);
      }
      Rehash(memory);
    }

    /** insert_elem: `e` goes to the front of its bucket. */
    method Add(e: T, b: nat)
      requires Valid() && b < |buckets| && b == Index(hash, e, |buckets|)
      requires forall x :: x in Contents() ==> !Same(x, e, less)
      modifies this
      ensures Valid() && Contents() == old(Contents()) + multiset{e} && |buckets| == |old(buckets)|
    {
      AddOk(buckets, hash, less, e, b);
      elemCnt := elemCnt + 1;
      buckets := buckets[b := [e] + buckets[b]];
    }

    /** remove_elem: the element at position `p` of bucket `b`. */
    method Take(b: nat, p: nat)
      requires Valid() && b < |buckets| && p < |buckets[b]|
      modifies this
      ensures Valid() && old(buckets)[b][p] in old(Contents()) && |buckets| == |old(buckets)|
      ensures Contents() == old(Contents()) - multiset{old(buckets)[b][p]}
    {
      TakeOk(buckets, hash, less, b, p);
      elemCnt := elemCnt - 1;
      buckets := buckets[b := buckets[b][..p] + buckets[b][p + 1..]];
    }

    /** hash_replace: `e` takes the place of an equal element. */
    method Replace(e: T, memory: bool) returns (found: Option<T>)
      requires Valid()
      modifies this
      ensures Valid()
      ensures found.Some? ==> found.value in old(Contents()) && Same(found.value, e, less)
                              && Contents() == old(Contents()) - multiset{found.value} + multiset{e}
      ensures found.None? ==> (forall x :: x in old(Contents()) ==> !Same(x, e, less))
                              && Contents() == old(Contents()) + multiset{e}
      ensures if memory then BestCount(|buckets|, elemCnt) && elemCnt < 4 * |buckets| else |buckets| == |old(buckets)|
    {
      var b, p;
      found, b, p := FindInBucket(e);
      if found.Some? {
        OnlyOneSame(Contents(), hash, less, found.value, e);
        Take(b, p);
      }
      Add(e, b);
      Rehash(memory);
    }

    /** hash_delete. */
    method Delete(e: T, memory: bool) returns (found: Option<T>)
      requires Valid()
      modifies this
      ensures Valid()
      ensures found.Some? ==> found.value in old(Contents()) && Same(found.value, e, less)
                              && Contents() == old(Contents()) - multiset{found.value}
      ensures found.None? ==> (forall x :: x in old(Contents()) ==> !Same(x, e, less))
                              && Contents() == old(Contents())
      ensures forall x :: x in Contents() ==> !Same(x, e, less)
      ensures found.Some? ==> if memory then BestCount(|buckets|, elemCnt) else |buckets| == |old(buckets)|
      ensures found.None? ==> buckets == old(buckets) && elemCnt == old(elemCnt)
    {
      var b, p;
      found, b, p := FindInBucket(e);
      if found.Some? {
        OnlyOneSame(Contents(), hash, less, found.value, e);
        Take(b, p);
        Rehash(memory);
      }
    }
  }

  /** Any power of two of empty buckets is an empty table. */
  lemma EmptyTableOk<T(!new)>(buckets: seq<seq<T>>, hash: T -> nat, less: (T, T) -> bool)
    requires IsPow2(|buckets|) && forall i :: 0 <= i < |buckets| ==> buckets[i] == []
    ensures TableOk(buckets, hash, less) && Elements(buckets) == multiset{}
  {
    ElementsOfEmpty(buckets);
  }

  lemma AddOk<T(!new)>(buckets: seq<seq<T>>, hash: T -> nat, less: (T, T) -> bool, e: T, b: nat)
    requires Compatible(hash, less) && TableOk(buckets, hash, less)
    requires b < |buckets| && b == Index(hash, e, |buckets|)
    requires forall x :: x in Elements(buckets) ==> !Same(x, e, less)
    ensures var r := buckets[b := [e] + buckets[b]];
            TableOk(r, hash, less) && Elements(r) == Elements(buckets) + multiset{e}
  {
    var r := buckets[b := [e] + buckets[b]];
    ElementsUpdate(buckets, b, [e] + buckets[b]);
    assert Elements(r) == Elements(buckets) + multiset{e};
    PlacedFront(buckets, hash, e, b);
    assert CompatibleAt(hash, less, e, e, e) && Same(e, e, less);
    AddDifferent(Elements(buckets), less, e);
  }

  lemma AddDifferent<T(!new)>(s: multiset<T>, less: (T, T) -> bool, e: T)
    requires AllDifferent(s, less) && Same(e, e, less) && forall x :: x in s ==> !Same(x, e, less)
    ensures AllDifferent(s + multiset{e}, less)
  {
    assert e !in s;
    forall x, y | x in s + multiset{e} && y in s + multiset{e} && Same(x, y, less)
      ensures x == y
    {
      assert Same(y, x, less);
    }
    forall x | x in s + multiset{e}
      ensures (s + multiset{e})[x] == 1
    {
      assert x != e ==> s[x] == 1;
    }
  }

  lemma TakeOk<T(!new)>(buckets: seq<seq<T>>, hash: T -> nat, less: (T, T) -> bool, b: nat, p: nat)
    requires TableOk(buckets, hash, less) && b < |buckets| && p < |buckets[b]|
    ensures var r, x := buckets[b := buckets[b][..p] + buckets[b][p + 1..]], buckets[b][p];
            x in Elements(buckets) && TableOk(r, hash, less) && Elements(r) == Elements(buckets) - multiset{x}
  {
    var x, rest := buckets[b][p], buckets[b][..p] + buckets[b][p + 1..];
    var r := buckets[b := rest];
    ElementsMember(buckets, x);
    ElementsUpdate(buckets, b, rest);
    MultisetWithout(buckets[b], p);
    PlacedWithout(buckets, hash, b, p);
    assert Elements(r) == Elements(buckets) - multiset{x};
    TakeDifferent(Elements(buckets), less, x);
  }

  lemma TakeDifferent<T(!new)>(s: multiset<T>, less: (T, T) -> bool, x: T)
    requires AllDifferent(s, less) && x in s
    ensures AllDifferent(s - multiset{x}, less)
  {
    forall y | y in s - multiset{x}
      ensures (s - multiset{x})[y] == 1
    {
      assert s[y] == 1 && s[x] == 1;
    }
  }

  lemma MultisetWithout<T>(s: seq<T>, p: nat)
    requires p < |s|
    ensures multiset(s[..p] + s[p + 1..]) == multiset(s) - multiset{s[p]}
  {
    assert s == s[..p] + [s[p]] + s[p + 1..];
  }

  lemma PlacedFront<T>(buckets: seq<seq<T>>, hash: T -> nat, e: T, b: nat)
    requires Placed(buckets, hash) && b < |buckets| && Index(hash, e, |buckets|) == b
    ensures Placed(buckets[b := [e] + buckets[b]], hash)
  {
    var r := buckets[b := [e] + buckets[b]];
    forall i, j | 0 <= i < |r| && 0 <= j < |r[i]|
      ensures Index(hash, r[i][j], |r|) == i
    {
      if i == b && j > 0 {
        assert r[i][j] == buckets[i][j - 1];
      }
    }
  }

  lemma PlacedWithout<T>(buckets: seq<seq<T>>, hash: T -> nat, b: nat, p: nat)
    requires Placed(buckets, hash) && b < |buckets| && p < |buckets[b]|
    ensures Placed(buckets[b := buckets[b][..p] + buckets[b][p + 1..]], hash)
  {
    var r := buckets[b := buckets[b][..p] + buckets[b][p + 1..]];
    forall i, j | 0 <= i < |r| && 0 <= j < |r[i]|
      ensures Index(hash, r[i][j], |r|) == i
    {
      if i == b {
        assert r[i][j] == buckets[i][if j < p then j else j + 1];
      }
    }
  }

  /** Taking out the element equal to `e` leaves none equal to it. */
  lemma OnlyOneSame<T(!new)>(s: multiset<T>, hash: T -> nat, less: (T, T) -> bool, x: T, e: T)
    requires Compatible(hash, less) && AllDifferent(s, less) && x in s && Same(x, e, less)
    ensures forall y :: y in s - multiset{x} ==> !Same(y, e, less)
  {
    forall y | y in s - multiset{x}
      ensures !Same(y, e, less)
    {
      assert y in s && y != x;
      assert !Same(x, y, less);
      assert CompatibleAt(hash, less, x, y, e) && CompatibleAt(hash, less, y, x, e);
    }
  }

  // ---------------------------------------------------------------------------------
  // Iteration

  /** All elements, bucket after bucket. */
  ghost function Flat<T>(buckets: seq<seq<T>>): seq<T> {
    if buckets == [] then [] else Flat(buckets[..|buckets| - 1]) + buckets[|buckets| - 1]
  }

  lemma {:induction false} FlatElements<T>(buckets: seq<seq<T>>)
    ensures multiset(Flat(buckets)) == Elements(buckets)
  {
    if buckets != [] {
      FlatElements(buckets[..|buckets| - 1]);
    }
  }

  /** hash_first and hash_next over a table that is not changed meanwhile. */
  class Iterator<T(!new, ==)> {
    const buckets: seq<seq<T>>
    var bucket: nat
    var pos: int
    ghost var visited: seq<T>

    ghost predicate Valid()
      reads this
    {
      && bucket < |buckets| && -1 <= pos < |buckets[bucket]|
      && visited == Flat(buckets[..bucket]) + buckets[bucket][..pos + 1]
    }

    constructor First(table: Table<T>)
      requires table.Valid()
      ensures Valid() && buckets == table.buckets && visited == []
    {
      buckets := table.buckets;
      bucket, pos := 0, -1;
      visited := [];
    }

    method Next() returns (r: Option<T>)
      requires Valid()
      modifies this
      ensures r.Some? ==> Valid() && visited == old(visited) + [r.value] && |visited| <= |Flat(buckets)|
      ensures r.None? ==> visited == old(visited) == Flat(buckets)
    {
      pos := pos + 1;
      while pos == |buckets[bucket]|
        invariant bucket < |buckets| && 0 <= pos <= |buckets[bucket]|
        invariant visited == old(visited) == Flat(buckets[..bucket]) + buckets[bucket][..pos]
        decreases |buckets| - bucket
      {
        assert buckets[bucket][..pos] == buckets[bucket];
        assert buckets[..bucket + 1][..bucket] == buckets[..bucket];
        bucket := bucket + 1;
        if bucket >= |buckets| {
          assert buckets[..bucket] == buckets;
          return None;
        }
        pos := 0;
      }
      var x := buckets[bucket][pos];
      assert buckets[bucket][..pos + 1] == buckets[bucket][..pos] + [x];
      visited := visited + [x];
      FlatPrefix(buckets, bucket, pos + 1);
      return Some(x);
    }
  }

  lemma {:induction false} FlatPrefix<T>(buckets: seq<seq<T>>, b: nat, p: nat)
    requires b < |buckets| && p <= |buckets[b]|
    ensures |Flat(buckets[..b])| + p <= |Flat(buckets)|
    decreases |buckets|
  {
    var n := |buckets| - 1;
    if b < n {
      FlatPrefix(buckets[..n], b, p);
      assert buckets[..n][..b] == buckets[..b];
    } else {
      assert buckets[..b] == buckets[..n];
    }
  }

  /** A whole iteration visits every element exactly once. */
  method VisitAll<T(!new, ==)>(table: Table<T>) returns (out: seq<T>)
    requires table.Valid()
    ensures multiset(out) == table.Contents()
    ensures forall i, j :: 0 <= i < j < |out| ==> out[i] != out[j]
  {
    out := [];
    var it := new Iterator<T>.First(table);
    FlatElements(it.buckets);
    var more := true;
    while more
      invariant it.buckets == table.buckets && (more ==> it.Valid())
      invariant out == it.visited && |out| <= |Flat(it.buckets)|
      invariant !more ==> out == Flat(it.buckets)
      decreases |Flat(it.buckets)| - |out|, more
    {
      var r := it.Next();
      if r.None? {
        more := false;
      } else {
        out := out + [r.value];
      }
    }
    SingleOccurrences(out, table.Contents());
  }

  lemma SingleOccurrences<T(!new)>(s: seq<T>, m: multiset<T>)
    requires multiset(s) == m && forall x :: x in m ==> m[x] == 1
    ensures forall i, j :: 0 <= i < j < |s| ==> s[i] != s[j]
  {
    forall i, j | 0 <= i < j < |s|
      ensures s[i] != s[j]
    {
      MultisetWithout(s, j);
      var rest := s[..j] + s[j + 1..];
      assert rest[i] == s[i] && s[i] in multiset(rest);
      assert s[j] in multiset(s);
    }
  }
}
