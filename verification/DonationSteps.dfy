/**
 What each lock operation of pintos-kaist/threads/synch.c and thread_set_priority of
 pintos-kaist/threads/thread.c does to every thread and every lock, said without the functions that compute it.
 */
module DonationSteps {
  import opened Wrappers
  import opened ListOrder
  import opened PriorityDonation

  /** Nothing but thread `cur` and lock `l` may differ. */
  ghost predicate OnlyThreadAndLock(s: State, r: State, cur: nat, l: nat) {
    && |r.threads| == |s.threads| && |r.locks| == |s.locks|
    && (forall t :: 0 <= t < |s.threads| && t != cur ==> r.threads[t] == s.threads[t])
    && (forall x :: 0 <= x < |s.locks| && x != l ==> r.locks[x] == s.locks[x])
  }

  // ---------------------------------------------------------------- thread_set_priority

  /** The new base is what was asked for, and the priority is the maximum of it and the donations; nothing else
      changes. */
  lemma SetPriorityDoes(s: State, cur: nat, p: int)
    requires Inv(s) && Enabled(s, SetPriority(cur, p))
    ensures var r := Apply(s, SetPriority(cur, p));
      && |r.threads| == |s.threads| && r.locks == s.locks
      && (forall t :: 0 <= t < |s.threads| && t != cur ==> r.threads[t] == s.threads[t])
      && r.threads[cur].base == p
      && r.threads[cur].donations == s.threads[cur].donations && r.threads[cur].pending == s.threads[cur].pending
      && p <= r.threads[cur].priority
      && (forall d :: d in s.threads[cur].donations ==> d.priority <= r.threads[cur].priority)
      && (r.threads[cur].priority == p || exists d :: d in s.threads[cur].donations && d.priority == r.threads[cur].priority)
  {
    SetPriorityOk(s, cur, p);
    var r := Apply(s, SetPriority(cur, p));
    assert ThreadOk(r, cur);
    var ds := r.threads[cur].donations;
    if r.threads[cur].priority != p {
      var i :| 0 <= i < |ds| && ds[i].priority == r.threads[cur].priority;
      assert ds[i] in s.threads[cur].donations;
    }
  }

  // ---------------------------------------------------------------- taking and queueing

  /** `q` is `ws` with `cur` before the first waiter of lower priority. */
  ghost predicate Queued(threads: seq<Thread>, ws: seq<nat>, q: seq<nat>, cur: nat) {
    exists k :: 0 <= k <= |ws| && q == ws[..k] + [cur] + ws[k..]
      && (forall i :: 0 <= i < k ==> PriorityIn(threads, ws[i]) >= PriorityIn(threads, cur))
      && (k < |ws| ==> PriorityIn(threads, ws[k]) < PriorityIn(threads, cur))
  }

  lemma SemaDownDoes(s: State, cur: nat, l: nat)
    requires Inv(s) && cur < |s.threads| && l < |s.locks|
    ensures var r := SemaDown(s, cur, l);
      && OnlyThreadAndLock(s, r, cur, l)
      && (s.locks[l].holder.None? ==>
            r.locks[l] == Lock(Some(cur), 0, s.locks[l].waiters) && r.threads[cur] == s.threads[cur].(pending := None))
      && (s.locks[l].holder.Some? ==>
            && r.threads == s.threads && r.locks[l] == Lock(s.locks[l].holder, 0, r.locks[l].waiters)
            && Queued(s.threads, s.locks[l].waiters, r.locks[l].waiters, cur))
  {
    assert LockOk(s, l);
    if s.locks[l].holder.Some? {
      var ws := s.locks[l].waiters;
      var k := InsertionPoint(ws, cur, ByPriority(s.threads));
      InsertionPointIsFirst(ws, cur, ByPriority(s.threads));
      assert SemaDown(s, cur, l).locks[l].waiters == ws[..k] + [cur] + ws[k..];
    }
  }

  /** A woken thread takes the lock if it is free and otherwise queues up again, donating nothing. */
  lemma ResumeDoes(s: State, cur: nat, l: nat)
    requires Inv(s) && Enabled(s, Resume(cur, l))
    ensures var r := Apply(s, Resume(cur, l));
      && OnlyThreadAndLock(s, r, cur, l)
      && (s.locks[l].holder.None? ==>
            r.locks[l] == Lock(Some(cur), 0, s.locks[l].waiters) && r.threads[cur] == s.threads[cur].(pending := None))
      && (s.locks[l].holder.Some? ==>
            && r.threads == s.threads && r.locks[l] == Lock(s.locks[l].holder, 0, r.locks[l].waiters)
            && Queued(s.threads, s.locks[l].waiters, r.locks[l].waiters, cur))
  {
    SemaDownDoes(s, cur, l);
  }

  /** lock_try_acquire takes a free lock and does nothing to one that is held. */
  lemma TryAcquireDoes(s: State, cur: nat, l: nat)
    requires Inv(s) && Enabled(s, TryAcquire(cur, l))
    ensures var r := Apply(s, TryAcquire(cur, l));
      && OnlyThreadAndLock(s, r, cur, l) && r.threads == s.threads
      && r.locks[l] == if s.locks[l].holder.None? then Lock(Some(cur), 0, s.locks[l].waiters) else s.locks[l]
  {
    assert LockOk(s, l);
  }

  /** lock_acquire of a free lock: it is held, and nothing else happens. */
  lemma AcquireFreeDoes(s: State, cur: nat, l: nat)
    requires Inv(s) && Enabled(s, Acquire(cur, l)) && s.locks[l].holder.None?
    ensures var r := Apply(s, Acquire(cur, l));
      r.threads == s.threads && OnlyThreadAndLock(s, r, cur, l) && r.locks[l] == Lock(Some(cur), 0, s.locks[l].waiters)
  {
    SemaDownDoes(s, cur, l);
    assert s.threads[cur := s.threads[cur]] == s.threads;
  }

  // ---------------------------------------------------------------- lock_release

  lemma {:induction false} WithoutLockCounts(ds: seq<Donation>, l: nat, d: Donation)
    ensures multiset(WithoutLock(ds, l))[d] == if d.lock == l then 0 else multiset(ds)[d]
  {
    if ds != [] {
      WithoutLockCounts(ds[1..], l, d);
      assert ds == [ds[0]] + ds[1..];
    }
  }

  lemma {:induction false} SortCounts<X>(s: seq<X>, less: (X, X) -> bool)
    ensures multiset(InsertionSort(s, less).0) == multiset(s)
  {
    if s != [] {
      var n := |s| - 1;
      SortCounts(s[..n], less);
      var t := InsertionSort(s[..n], less).0;
      var k := InsertionPoint(t, s[n], less);
      InsertAtCounts(t, k, s[n]);
      assert InsertionSort(s, less).0 == InsertAt(t, k, s[n]);
      assert s == s[..n] + [s[n]];
    }
  }

  lemma InsertAtCounts<X>(t: seq<X>, k: nat, x: X)
    requires k <= |t|
    ensures multiset(InsertAt(t, k, x)) == multiset(t) + multiset{x}
  {
    assert t == t[..k] + t[k..];
  }

  /** The releaser keeps exactly its donations for other locks, and its priority is the maximum of its base and those.  The
      lock is free, and its first waiter of highest priority, if any, is no longer queued. */
  lemma ReleaseDoes(s: State, cur: nat, l: nat)
    requires Inv(s) && Enabled(s, Release(cur, l))
    ensures var r := Apply(s, Release(cur, l)); var t, t' := s.threads[cur], r.threads[cur];
      && OnlyThreadAndLock(s, r, cur, l)
      && t'.base == t.base && t'.pending == t.pending
      && (forall d :: multiset(t'.donations)[d] == if d.lock == l then 0 else multiset(t.donations)[d])
      && IsMax(t'.priority, t'.base, t'.donations)
      && r.locks[l] == Lock(None, 1, r.locks[l].waiters)
      && (s.locks[l].waiters == [] ==> r.locks[l].waiters == [])
    ensures s.locks[l].waiters != [] ==> Woken(s, Apply(s, Release(cur, l)), l)
  {
    var r := Apply(s, Release(cur, l));
    assert LockOk(s, l);
    assert r.threads[cur] == Released(s.threads[cur], l);
    ReleasedDoes(s.threads[cur], l);
    if s.locks[l].waiters != [] { ReleaseWakes(s, cur, l); }
  }

  lemma ReleasedDoes(t: Thread, l: nat)
    ensures var t' := Released(t, l);
      && t'.base == t.base && t'.pending == t.pending && IsMax(t'.priority, t'.base, t'.donations)
      && (forall d :: multiset(t'.donations)[d] == if d.lock == l then 0 else multiset(t.donations)[d])
  {
    var kept := WithoutLock(t.donations, l);
    RecalculatedOk(t.(donations := kept));
    SortCounts(kept, Higher);
    forall d ensures multiset(Released(t, l).donations)[d] == if d.lock == l then 0 else multiset(t.donations)[d] {
      WithoutLockCounts(t.donations, l, d);
    }
  }

  /** The queue has lost its first waiter of highest priority; the rest are sorted, equals in arrival order.  Priorities
      are those after the releaser's has been recomputed. */
  ghost predicate Woken(s: State, r: State, l: nat)
    requires l < |s.locks| && l < |r.locks|
  {
    exists k: nat, perm: seq<nat> :: WokenAt(r, s.locks[l].waiters, r.locks[l].waiters, k, perm)
  }

  ghost predicate WokenAt(r: State, ws: seq<nat>, rest: seq<nat>, k: nat, perm: seq<nat>) {
    && k < |ws| && IsStableSort(ws, [ws[k]] + rest, perm, ByPriority(r.threads))
    && forall i :: 0 <= i < |ws| ==>
         Priority(r, ws[i]) <= Priority(r, ws[k]) && (i < k ==> Priority(r, ws[i]) < Priority(r, ws[k]))
  }

  lemma ReleaseWakes(s: State, cur: nat, l: nat)
    requires cur < |s.threads| && l < |s.locks| && s.locks[l].waiters != []
    ensures Woken(s, ReleaseStep(s, cur, l), l)
  {
    var r := ReleaseStep(s, cur, l);
    var ws := s.locks[l].waiters;
    var k, perm := FrontWoken(r, ws);
    var s' := State(r.threads, s.locks[l := s.locks[l].(holder := None)]);
    assert r == SemaUp(s', l);
    assert WokenAt(r, ws, r.locks[l].waiters, k, perm);
  }

  lemma FrontWoken(r: State, ws: seq<nat>) returns (k: nat, perm: seq<nat>)
    requires ws != []
    ensures k < |ws| && SortWaiters(r.threads, ws) != []
    ensures IsStableSort(ws, [ws[k]] + SortWaiters(r.threads, ws)[1..], perm, ByPriority(r.threads))
    ensures forall i :: 0 <= i < |ws| ==>
      Priority(r, ws[i]) <= Priority(r, ws[k]) && (i < k ==> Priority(r, ws[i]) < Priority(r, ws[k]))
  {
    var less := ByPriority(r.threads);
    var q;
    q, perm := InsertionSort(ws, less).0, InsertionSort(ws, less).1;
    InsertionSortIsStableSort(ws, less);
    InsertionSortPermutes(ws, less);
    k := perm[0];
    assert q == [ws[k]] + q[1..];
    forall i | 0 <= i < |ws|
      ensures Priority(r, ws[i]) <= Priority(r, ws[k]) && (i < k ==> Priority(r, ws[i]) < Priority(r, ws[k]))
    {
      FrontIsHighest(ws, q, perm, less, i);
    }
  }

  // ---------------------------------------------------------------- lock_acquire of a held lock

  /** `h` is the `k`-th thread in front of `cur`, and none of the first `k` is above it. */
  ghost predicate OnChain(s: State, cur: nat, k: nat, h: nat) {
    && k > 0 && Ahead(s, cur, k) == Some(h)
    && forall j: nat {:trigger Ahead(s, cur, j)} :: 0 < j <= k ==>
         Ahead(s, cur, j).Some? && Priority(s, Ahead(s, cur, j).value) <= Priority(s, cur)
  }

  /** Round `m` of the walk donates to `h`. */
  predicate Visits(s: State, cur: nat, l: nat, m: nat, h: nat) {
    WalkLock(s, cur, l, m).Some? && Donee(s, cur, WalkLock(s, cur, l, m).value) == Some(h)
  }

  /** The walk goes along the chain: round `m` comes to the `m + 1`-st thread on it. */
  lemma {:induction false} ChainIsWalk(s: State, cur: nat, l: nat, m: nat, h: nat)
    requires Inv(s) && cur < |s.threads| && l < |s.locks| && s.threads[cur].pending == Some(l)
    ensures Visits(s, cur, l, m, h) <==> OnChain(s, cur, m + 1, h)
    decreases m
  {
    if m == 0 {
      assert Ahead(s, cur, 0) == Some(cur);
      assert LockOk(s, l);
      assert Ahead(s, cur, 1) == s.locks[l].holder;
    } else {
      if Ahead(s, cur, m).Some? { ChainIsWalk(s, cur, l, m - 1, Ahead(s, cur, m).value); }
      if Visits(s, cur, l, m, h) {
        ChainForth(s, cur, l, m, h);
      }
      if OnChain(s, cur, m + 1, h) {
        ChainBack(s, cur, l, m, h);
      }
    }
  }

  lemma ChainForth(s: State, cur: nat, l: nat, m: nat, h: nat)
    requires Inv(s) && cur < |s.threads| && l < |s.locks| && s.threads[cur].pending == Some(l) && m > 0
    requires Visits(s, cur, l, m, h)
    ensures OnChain(s, cur, m + 1, h)
    decreases m, 0
  {
    var g := Donee(s, cur, WalkLock(s, cur, l, m - 1).value).value;
    ChainIsWalk(s, cur, l, m - 1, g);
    assert Ahead(s, cur, m) == Some(g);
    assert Ahead(s, cur, m + 1) == Some(h);
    forall j: nat | 0 < j <= m + 1
      ensures Ahead(s, cur, j).Some? && Priority(s, Ahead(s, cur, j).value) <= Priority(s, cur)
    {
    }
  }

  lemma ChainBack(s: State, cur: nat, l: nat, m: nat, h: nat)
    requires Inv(s) && cur < |s.threads| && l < |s.locks| && s.threads[cur].pending == Some(l) && m > 0
    requires OnChain(s, cur, m + 1, h)
    ensures Visits(s, cur, l, m, h)
    decreases m, 0
  {
    assert Ahead(s, cur, m).Some?;
    var g := Ahead(s, cur, m).value;
    ChainIsWalk(s, cur, l, m - 1, g);
    assert Visits(s, cur, l, m - 1, g);
    assert WalkLock(s, cur, l, m) == s.threads[g].pending;
    var x := s.threads[g].pending.value;
    assert LockOk(s, x);
  }

  /** A walk that ends comes to no thread twice. */
  lemma VisitOnce(s: State, cur: nat, l: nat, m: nat, n: nat, h: nat)
    requires Inv(s) && l < |s.locks| && WalkEnds(s, cur, l) && Visits(s, cur, l, m, h) && Visits(s, cur, l, n, h)
    ensures m == n
  {
    if m != n {
      var a, b := if m < n then m else n, if m < n then n else m;
      assert WalkLock(s, cur, l, a + 1) == WalkLock(s, cur, l, b + 1) == s.threads[h].pending;
      if s.threads[h].pending.None? {
        WalkOverStaysOver(s, cur, l, a + 1, b);
      } else {
        WalkEndsIff(s, cur, l);
      }
    }
  }

  /** `t'` is `t` with one more donation of `p` from `cur` for lock `x`. */
  ghost predicate Gave(t: Thread, t': Thread, p: int, cur: nat, x: nat) {
    && t'.base == t.base && t'.pending == t.pending && t'.priority == p
    && multiset(t'.donations) == multiset(t.donations) + multiset{Donation(p, cur, x)}
  }

  ghost predicate Resorted(ws: seq<nat>, q: seq<nat>, threads: seq<Thread>) {
    exists perm :: IsStableSort(ws, q, perm, ByPriority(threads))
  }

  /** Thread `t` was visited before round `n`, or some visited thread waits for lock `x`. */
  ghost predicate Visited(s: State, cur: nat, l: nat, n: nat, t: nat) {
    exists m: nat :: m < n && Visits(s, cur, l, m, t)
  }

  ghost predicate Stirred(s: State, cur: nat, l: nat, n: nat, x: nat) {
    exists m: nat, t: nat :: m < n && Visits(s, cur, l, m, t) && t < |s.threads| && s.threads[t].pending == Some(x)
  }

  ghost predicate ThreadAfter(s: State, r: State, cur: nat, l: nat, n: nat, t: nat)
    requires t < |s.threads| && t < |r.threads|
  {
    if Visited(s, cur, l, n, t)
    then exists x: nat :: x < |s.locks| && s.locks[x].holder == Some(t) && Gave(s.threads[t], r.threads[t], Priority(s, cur), cur, x)
    else r.threads[t] == s.threads[t]
  }

  ghost predicate LockAfter(s: State, r: State, cur: nat, l: nat, n: nat, x: nat)
    requires x < |s.locks| && x < |r.locks|
  {
    && r.locks[x].holder == s.locks[x].holder && r.locks[x].value == s.locks[x].value
    && if Stirred(s, cur, l, n, x) then Resorted(s.locks[x].waiters, r.locks[x].waiters, r.threads)
       else r.locks[x].waiters == s.locks[x].waiters
  }

  ghost predicate WalkedExactly(s: State, r: State, cur: nat, l: nat, n: nat) {
    && |r.threads| == |s.threads| && |r.locks| == |s.locks|
    && (forall t: nat {:trigger ThreadAfter(s, r, cur, l, n, t)} :: t < |s.threads| ==> ThreadAfter(s, r, cur, l, n, t))
    && (forall x: nat {:trigger LockAfter(s, r, cur, l, n, x)} :: x < |s.locks| ==> LockAfter(s, r, cur, l, n, x))
  }

  /** The walk up to round `n`, thread by thread and lock by lock. */
  lemma {:induction false} WalkDoes(s: State, cur: nat, l: nat, n: nat) returns (r: State)
    requires Inv(s) && l < |s.locks| && WalkEnds(s, cur, l)
    ensures r == WalkState(s, cur, l, n) && WalkedExactly(s, r, cur, l, n)
    decreases n
  {
    if n == 0 {
      r := s;
      NothingYet(s, cur, l);
    } else {
      var q := WalkDoes(s, cur, l, n - 1);
      r := RoundAfter(s, q, cur, l, n - 1, n);
    }
  }

  lemma RoundAfter(s: State, q: State, cur: nat, l: nat, m: nat, n: nat) returns (r: State)
    requires Inv(s) && l < |s.locks| && WalkEnds(s, cur, l) && n == m + 1
    requires q == WalkState(s, cur, l, m) && WalkedExactly(s, q, cur, l, m)
    ensures r == WalkState(s, cur, l, n) && WalkedExactly(s, r, cur, l, n)
  {
    var q' := WalkStateOk(s, cur, l, m);
    r := WalkRound(s, cur, l, m, q);
    NextRound(s, q, r, cur, l, m);
  }

  lemma NothingYet(s: State, cur: nat, l: nat)
    ensures WalkedExactly(s, s, cur, l, 0)
  {
    forall t: nat | t < |s.threads| ensures ThreadAfter(s, s, cur, l, 0, t) { assert !Visited(s, cur, l, 0, t); }
    forall x: nat | x < |s.locks| ensures LockAfter(s, s, cur, l, 0, x) { assert !Stirred(s, cur, l, 0, x); }
  }

  lemma NextRound(s: State, q: State, r: State, cur: nat, l: nat, n: nat)
    requires Inv(s) && l < |s.locks| && WalkEnds(s, cur, l) && Inv(q) && Walked(s, q, cur) && WalkedExactly(s, q, cur, l, n)
    requires q == WalkState(s, cur, l, n) && r == WalkState(s, cur, l, n + 1)
    ensures WalkedExactly(s, r, cur, l, n + 1)
  {
    var x, n' := WalkLock(s, cur, l, n), n + 1;
    if x.Some? && Donee(s, cur, x.value).Some? {
      RoundDoes(s, q, r, cur, l, n, x.value, Donee(s, cur, x.value).value);
    } else {
      forall t: nat | t < |s.threads| ensures ThreadAfter(s, r, cur, l, n', t) {
        assert ThreadAfter(s, q, cur, l, n, t);
        IdleVisited(s, cur, l, n, t);
      }
      forall y: nat | y < |s.locks| ensures LockAfter(s, r, cur, l, n', y) {
        assert LockAfter(s, q, cur, l, n, y);
        IdleStirred(s, cur, l, n, y);
      }
    }
  }

  lemma IdleVisited(s: State, cur: nat, l: nat, n: nat, t: nat)
    requires forall h :: !Visits(s, cur, l, n, h)
    ensures Visited(s, cur, l, n + 1, t) == Visited(s, cur, l, n, t)
  {
  }

  lemma IdleStirred(s: State, cur: nat, l: nat, n: nat, x: nat)
    requires forall h :: !Visits(s, cur, l, n, h)
    ensures Stirred(s, cur, l, n + 1, x) == Stirred(s, cur, l, n, x)
  {
  }

  /** Round `n`, which donates to `h`. */
  lemma RoundDoes(s: State, q: State, r: State, cur: nat, l: nat, n: nat, x: nat, h: nat)
    requires Inv(s) && l < |s.locks| && WalkEnds(s, cur, l) && Inv(q) && Walked(s, q, cur) && WalkedExactly(s, q, cur, l, n)
    requires WalkLock(s, cur, l, n) == Some(x) && Donee(s, cur, x) == Some(h) && r == DonateOnce(q, cur, x, h)
    ensures WalkedExactly(s, r, cur, l, n + 1)
  {
    DoneeKept(s, q, cur, x);
    var n' := n + 1;
    forall t: nat | t < |s.threads| ensures ThreadAfter(s, r, cur, l, n', t) {
      assert ThreadAfter(s, q, cur, l, n, t);
      ThreadRound(s, q, r, cur, l, n, x, h, t);
    }
    forall y: nat | y < |s.locks| ensures LockAfter(s, r, cur, l, n', y) {
      assert LockAfter(s, q, cur, l, n, y);
      LockRound(s, q, r, cur, l, n, x, h, y);
    }
  }

  lemma ThreadRound(s: State, q: State, r: State, cur: nat, l: nat, n: nat, x: nat, h: nat, t: nat)
    requires Inv(s) && l < |s.locks| && WalkEnds(s, cur, l) && Walked(s, q, cur) && t < |s.threads|
    requires WalkLock(s, cur, l, n) == Some(x) && Donee(s, cur, x) == Some(h) && r == DonateOnce(q, cur, x, h)
    requires ThreadAfter(s, q, cur, l, n, t)
    ensures ThreadAfter(s, r, cur, l, n + 1, t)
  {
    if t == h {
      assert Visits(s, cur, l, n, h);
      if Visited(s, cur, l, n, h) {
        var m: nat :| m < n && Visits(s, cur, l, m, h);
        VisitOnce(s, cur, l, m, n, h);
      }
      InsertCounts(s.threads[h].donations, Donation(Priority(s, cur), cur, x));
      assert Gave(s.threads[h], r.threads[h], Priority(s, cur), cur, x);
      assert Visited(s, cur, l, n + 1, h);
    } else {
      assert Visited(s, cur, l, n + 1, t) == Visited(s, cur, l, n, t) by { OtherVisited(s, cur, l, n, h, t); }
    }
  }

  lemma OtherVisited(s: State, cur: nat, l: nat, n: nat, h: nat, t: nat)
    requires Visits(s, cur, l, n, h) && t != h
    ensures Visited(s, cur, l, n + 1, t) == Visited(s, cur, l, n, t)
  {
  }

  lemma InsertCounts(ds: seq<Donation>, d: Donation)
    ensures multiset(InsertDonation(ds, d)) == multiset(ds) + multiset{d}
  {
    InsertAtCounts(ds, InsertionPoint(ds, d, Higher), d);
  }

  lemma LockRound(s: State, q: State, r: State, cur: nat, l: nat, n: nat, x: nat, h: nat, y: nat)
    requires Inv(s) && l < |s.locks| && WalkEnds(s, cur, l) && Inv(q) && Walked(s, q, cur) && y < |s.locks|
    requires WalkLock(s, cur, l, n) == Some(x) && Donee(s, cur, x) == Some(h) && r == DonateOnce(q, cur, x, h)
    requires LockAfter(s, q, cur, l, n, y)
    ensures LockAfter(s, r, cur, l, n + 1, y)
  {
    assert Visits(s, cur, l, n, h);
    assert WalkedThread(s.threads[h], q.threads[h], Priority(s, cur));
    if s.threads[h].pending == Some(y) {
      assert Stirred(s, cur, l, n + 1, y);
      if Stirred(s, cur, l, n, y) {
        var m: nat, t: nat :| m < n && Visits(s, cur, l, m, t) && t < |s.threads| && s.threads[t].pending == Some(y);
        TwoWaiters(s, cur, l, m, n, t, h, y);
      }
      var less, ws := ByPriority(r.threads), s.locks[y].waiters;
      InsertionSortIsStableSort(ws, less);
      InsertionSortPermutes(ws, less);
      assert IsStableSort(ws, r.locks[y].waiters, InsertionSort(ws, less).1, less);
    } else {
      assert Stirred(s, cur, l, n + 1, y) == Stirred(s, cur, l, n, y) by { OtherStirred(s, cur, l, n, h, y); }
      assert r.locks[y] == q.locks[y];
      if Stirred(s, cur, l, n, y) {
        var perm :| IsStableSort(s.locks[y].waiters, q.locks[y].waiters, perm, ByPriority(q.threads));
        assert LockOk(s, y);
        SameOrder(s.locks[y].waiters, q.locks[y].waiters, perm, q.threads, r.threads, h);
      }
    }
  }

  lemma OtherStirred(s: State, cur: nat, l: nat, n: nat, h: nat, y: nat)
    requires Visits(s, cur, l, n, h) && (h < |s.threads| ==> s.threads[h].pending != Some(y))
    ensures Stirred(s, cur, l, n + 1, y) == Stirred(s, cur, l, n, y)
  {
  }

  /** Two visited threads never wait for the same lock. */
  lemma TwoWaiters(s: State, cur: nat, l: nat, m: nat, n: nat, t: nat, h: nat, y: nat)
    requires Inv(s) && l < |s.locks| && WalkEnds(s, cur, l) && Visits(s, cur, l, m, t) && Visits(s, cur, l, n, h)
    requires t < |s.threads| && h < |s.threads| && s.threads[t].pending == s.threads[h].pending == Some(y)
    ensures m == n
  {
    assert WalkLock(s, cur, l, m + 1) == WalkLock(s, cur, l, n + 1) == Some(y);
    if m != n { WalkEndsIff(s, cur, l); }
  }

  lemma SameOrder(ws: seq<nat>, q: seq<nat>, perm: seq<nat>, a: seq<Thread>, b: seq<Thread>, h: nat)
    requires IsStableSort(ws, q, perm, ByPriority(a)) && h !in ws && |a| == |b|
    requires forall t :: 0 <= t < |a| && t != h ==> a[t] == b[t]
    ensures IsStableSort(ws, q, perm, ByPriority(b))
  {
    forall i | 0 <= i < |q| ensures PriorityIn(a, q[i]) == PriorityIn(b, q[i]) {
      assert q[i] == ws[perm[i]];
    }
  }

  /** The acquirer waits for `l`, nothing else having happened. */
  function Announced(s: State, cur: nat, l: nat): State
    requires cur < |s.threads|
  {
    s.(threads := s.threads[cur := s.threads[cur].(pending := Some(l))])
  }

  /** Some thread on the chain waits for lock `x`. */
  ghost predicate ChainWaits(s: State, cur: nat, x: nat) {
    exists k: nat, t: nat :: OnChain(s, cur, k, t) && t < |s.threads| && s.threads[t].pending == Some(x)
  }

  ghost predicate InChain(s: State, cur: nat, t: nat) { exists k: nat :: OnChain(s, cur, k, t) }

  /** lock_acquire of a held lock.  Exactly the threads on the chain of holders in front of the acquirer, up to the first
      above it, get its priority, with one record for a lock they hold; nobody else changes.  No lock changes hands.  The
      queues in which those threads wait are sorted anew, and the acquirer joins the queue of its lock. */
  lemma AcquireHeldDoes(s: State, cur: nat, l: nat, t: nat, x: nat)
    requires Inv(s) && Enabled(s, Acquire(cur, l)) && s.locks[l].holder.Some?
    ensures var s0, r := Announced(s, cur, l), Apply(s, Acquire(cur, l));
      && |r.threads| == |s.threads| && |r.locks| == |s.locks|
      && (t < |s.threads| ==>
            if InChain(s0, cur, t)
            then exists y: nat :: y < |s.locks| && s.locks[y].holder == Some(t) &&
                   Gave(s0.threads[t], r.threads[t], s.threads[cur].priority, cur, y)
            else r.threads[t] == s0.threads[t])
      && (x < |s.locks| ==>
            && r.locks[x].holder == s.locks[x].holder && r.locks[x].value == s.locks[x].value
            && if x == l then Queued(r.threads, s.locks[l].waiters, r.locks[l].waiters, cur)
               else if ChainWaits(s0, cur, x) then Resorted(s.locks[x].waiters, r.locks[x].waiters, r.threads)
               else r.locks[x].waiters == s.locks[x].waiters)
  {
    AnnounceOk(s, cur, l);
    var s0 := Announced(s, cur, l);
    assert s0 == Announce(s, cur, l);
    var n := Rounds(s0, cur, l);
    var w := WalkStateOk(s0, cur, l, n);
    var w' := WalkDoes(s0, cur, l, n);
    SemaDownDoes(w, cur, l);
    if t < |s.threads| {
      assert ThreadAfter(s0, w, cur, l, n, t);
      ChainVisited(s0, cur, l, n, t);
    }
    if x < |s.locks| {
      assert LockAfter(s0, w, cur, l, n, x);
      ChainStirred(s0, cur, l, n, x);
    }
    assert LockAfter(s0, w, cur, l, n, l);
    NotStirred(s0, cur, l, n);
  }

  lemma ChainVisited(s: State, cur: nat, l: nat, n: nat, t: nat)
    requires Inv(s) && cur < |s.threads| && l < |s.locks| && s.threads[cur].pending == Some(l) && WalkLock(s, cur, l, n).None?
    ensures Visited(s, cur, l, n, t) <==> InChain(s, cur, t)
  {
    if Visited(s, cur, l, n, t) {
      var m: nat :| m < n && Visits(s, cur, l, m, t);
      ChainIsWalk(s, cur, l, m, t);
    }
    if InChain(s, cur, t) {
      var k: nat :| OnChain(s, cur, k, t);
      ChainIsWalk(s, cur, l, k - 1, t);
      if n <= k - 1 { WalkOverStaysOver(s, cur, l, n, k - 1); }
    }
  }

  lemma ChainStirred(s: State, cur: nat, l: nat, n: nat, x: nat)
    requires Inv(s) && cur < |s.threads| && l < |s.locks| && s.threads[cur].pending == Some(l) && WalkLock(s, cur, l, n).None?
    ensures Stirred(s, cur, l, n, x) <==> ChainWaits(s, cur, x)
  {
    if Stirred(s, cur, l, n, x) {
      var m: nat, t: nat :| m < n && Visits(s, cur, l, m, t) && t < |s.threads| && s.threads[t].pending == Some(x);
      ChainIsWalk(s, cur, l, m, t);
    }
    if ChainWaits(s, cur, x) {
      var k: nat, t: nat :| OnChain(s, cur, k, t) && t < |s.threads| && s.threads[t].pending == Some(x);
      ChainIsWalk(s, cur, l, k - 1, t);
      if n <= k - 1 { WalkOverStaysOver(s, cur, l, n, k - 1); }
    }
  }

  /** Nobody on the walk waits for the lock it began with. */
  lemma NotStirred(s: State, cur: nat, l: nat, n: nat)
    requires Inv(s) && l < |s.locks| && WalkEnds(s, cur, l)
    ensures !Stirred(s, cur, l, n, l)
  {
    if Stirred(s, cur, l, n, l) {
      var m: nat, t: nat :| m < n && Visits(s, cur, l, m, t) && t < |s.threads| && s.threads[t].pending == Some(l);
      assert WalkLock(s, cur, l, m + 1) == WalkLock(s, cur, l, 0) == Some(l);
      WalkEndsIff(s, cur, l);
    }
  }
}
