/**
 Locks with nested priority donation: pintos-kaist/threads/synch.c and the priority part of
 pintos-kaist/threads/thread.c, with the multi-level feedback scheduler off.

 Threads and locks are numbered. A step is one call (or the part of one call up to where it
 blocks); the donation walk and the enqueueing that follows it are one step.
 */
module PriorityDonation {
  import opened Wrappers
  import opened ListOrder

  /** `donation` of pintos-kaist/include/threads/thread.h. */
  datatype Donation = Donation(priority: int, donor: nat, lock: nat)

  datatype Thread = Thread(base: int, priority: int, donations: seq<Donation>, pending: Option<nat>)

  /** A lock with its binary semaphore. */
  datatype Lock = Lock(holder: Option<nat>, value: nat, waiters: seq<nat>)

  datatype State = State(threads: seq<Thread>, locks: seq<Lock>)

  // ---------------------------------------------------------------------------------
  // Orders

  predicate Higher(a: Donation, b: Donation) {
    a.priority > b.priority
  }

  function PriorityIn(threads: seq<Thread>, t: nat): int {
    if t < |threads| then threads[t].priority else 0
  }

  function Priority(s: State, t: nat): int {
    PriorityIn(s.threads, t)
  }

  /** compare_priority: the order of every waiting queue. */
  function ByPriority(threads: seq<Thread>): (nat, nat) -> bool {
    (a: nat, b: nat) => PriorityIn(threads, a) > PriorityIn(threads, b)
  }

  /** The waiters of a lock, highest priority first, equals in arrival order. */
  function SortWaiters(threads: seq<Thread>, waiters: seq<nat>): seq<nat> {
    InsertionSort(waiters, ByPriority(threads)).0
  }

  // ---------------------------------------------------------------------------------
  // The donation walk

  /** The lock that the walk looks at in round `n`, if it gets that far. */
  function WalkLock(s: State, cur: nat, l: nat, n: nat): Option<nat> {
    if n == 0 then Some(l) else
      match WalkLock(s, cur, l, n - 1)
      case None => None
      case Some(x) =>
        var h := Donee(s, cur, x);
        if h.None? then None else s.threads[h.value].pending
  }

  /** The holder of `x`, unless the walk stops there. */
  function Donee(s: State, cur: nat, x: nat): (h: Option<nat>)
    ensures h.Some? ==> h.value < |s.threads|
  {
    if x < |s.locks| && s.locks[x].holder.Some? && s.locks[x].holder.value < |s.threads|
       && Priority(s, cur) >= s.threads[s.locks[x].holder.value].priority
    then s.locks[x].holder else None
  }

  /** The walk ends if some round has nothing to look at or stops. */
  ghost predicate WalkEnds(s: State, cur: nat, l: nat) {
    exists n: nat :: WalkLock(s, cur, l, n).None?
  }

  function InsertDonation(ds: seq<Donation>, d: Donation): seq<Donation> {
    InsertAt(ds, InsertionPoint(ds, d, Higher), d)
  }

  /** One round of the walk: `cur` donates to `h`, the holder of `x`; the queue in which `h`
      itself waits is sorted again. */
  function DonateOnce(s: State, cur: nat, x: nat, h: nat): (r: State)
    requires h < |s.threads|
    ensures |r.threads| == |s.threads| && |r.locks| == |s.locks|
  {
    var t, p := s.threads[h], Priority(s, cur);
    var t' := t.(priority := if t.priority < p then p else t.priority,
                 donations := InsertDonation(t.donations, Donation(p, cur, x)));
    var s' := s.(threads := s.threads[h := t']);
    if t.pending.Some? && t.pending.value < |s.locks| then SortQueue(s', t.pending.value) else s'
  }

  function SortQueue(s: State, l: nat): (r: State)
    requires l < |s.locks|
    ensures |r.locks| == |s.locks| && r.threads == s.threads
  {
    s.(locks := s.locks[l := s.locks[l].(waiters := SortWaiters(s.threads, s.locks[l].waiters))])
  }

  /** The state after `n` rounds of the walk. */
  ghost function WalkState(s: State, cur: nat, l: nat, n: nat): (r: State)
    ensures |r.threads| == |s.threads| && |r.locks| == |s.locks|
  {
    if n == 0 then s else
      var r, x := WalkState(s, cur, l, n - 1), WalkLock(s, cur, l, n - 1);
      if x.None? then r else
        var h := Donee(s, cur, x.value);
        if h.None? then r else DonateOnce(r, cur, x.value, h.value)
  }

  /** Where a walk that ends has ended. */
  ghost function Rounds(s: State, cur: nat, l: nat): (n: nat)
    requires WalkEnds(s, cur, l)
    ensures WalkLock(s, cur, l, n).None?
  {
    var n: nat :| WalkLock(s, cur, l, n).None?;
    n
  }

  ghost function Walk(s: State, cur: nat, l: nat): (r: State)
    requires WalkEnds(s, cur, l)
    ensures |r.threads| == |s.threads| && |r.locks| == |s.locks|
  {
    WalkState(s, cur, l, Rounds(s, cur, l))
  }

  // ---------------------------------------------------------------------------------
  // Steps

  /** The inside of sema_down: take the semaphore, or join the queue. */
  function SemaDown(s: State, cur: nat, l: nat): (r: State)
    requires cur < |s.threads| && l < |s.locks|
    ensures |r.threads| == |s.threads| && |r.locks| == |s.locks|
  {
    var k := s.locks[l];
    if k.value == 0 then
      var at := InsertionPoint(k.waiters, cur, ByPriority(s.threads));
      s.(locks := s.locks[l := k.(waiters := InsertAt(k.waiters, at, cur))])
    else
      State(s.threads[cur := s.threads[cur].(pending := None)],
            s.locks[l := k.(value := k.value - 1, holder := Some(cur))])
  }

  /** The acquirer announces what it waits for, if the lock has a holder. */
  function Announce(s: State, cur: nat, l: nat): (r: State)
    requires cur < |s.threads| && l < |s.locks|
    ensures |r.threads| == |s.threads| && r.locks == s.locks
  {
    if s.locks[l].holder.Some? then s.(threads := s.threads[cur := s.threads[cur].(pending := Some(l))]) else s
  }

  ghost function AcquireStep(s: State, cur: nat, l: nat): (r: State)
    requires cur < |s.threads| && l < |s.locks| && WalkEnds(Announce(s, cur, l), cur, l)
  {
    var s0 := Announce(s, cur, l);
    SemaDown(if s.locks[l].holder.Some? then Walk(s0, cur, l) else s0, cur, l)
  }

  function TryAcquireStep(s: State, cur: nat, l: nat): (r: State)
    requires cur < |s.threads| && l < |s.locks|
  {
    var k := s.locks[l];
    if k.value > 0 then s.(locks := s.locks[l := k.(value := k.value - 1, holder := Some(cur))]) else s
  }

  function WithoutLock(ds: seq<Donation>, l: nat): (r: seq<Donation>) {
    if ds == [] then []
    else if ds[0].lock == l then WithoutLock(ds[1..], l)
    else [ds[0]] + WithoutLock(ds[1..], l)
  }

  /** recalc_priority: back to the base, or to the front donation if that is higher. */
  function Recalculated(t: Thread): Thread {
    if t.donations == [] then t.(priority := t.base) else
      var ds := InsertionSort(t.donations, Higher).0;
      var front := ds[0].priority;
      t.(donations := ds, priority := if t.base < front then front else t.base)
  }

  /** sema_up: wake the front waiter of the sorted queue, if any. */
  function SemaUp(s: State, l: nat): (r: State)
    requires l < |s.locks|
    ensures |r.locks| == |s.locks| && r.threads == s.threads
  {
    var k := s.locks[l];
    var queue := if k.waiters == [] then [] else SortWaiters(s.threads, k.waiters)[1..];
    s.(locks := s.locks[l := k.(waiters := queue, value := k.value + 1)])
  }

  function ReleaseStep(s: State, cur: nat, l: nat): (r: State)
    requires cur < |s.threads| && l < |s.locks|
  {
    var t := s.threads[cur];
    var t' := Recalculated(t.(donations := WithoutLock(t.donations, l)));
    SemaUp(State(s.threads[cur := t'], s.locks[l := s.locks[l].(holder := None)]), l)
  }

  function SetPriorityStep(s: State, cur: nat, p: int): (r: State)
    requires cur < |s.threads|
  {
    var t := s.threads[cur];
    var front := if t.donations == [] then p else t.donations[0].priority;
    s.(threads := s.threads[cur := t.(base := p, priority := if front > p then front else p)])
  }

  datatype Action =
    | Acquire(cur: nat, l: nat)
    | Resume(cur: nat, l: nat)       // a woken thread looks at the semaphore again
    | TryAcquire(cur: nat, l: nat)
    | Release(cur: nat, l: nat)
    | SetPriority(cur: nat, p: int)

  /** What the callers are asked for: a thread acts only while it is not waiting, never acquires
      a lock that it holds, and releases only what it holds. */
  ghost predicate Enabled(s: State, a: Action) {
    && a.cur < |s.threads|
    && (!a.SetPriority? ==> a.l < |s.locks|)
    && match a
       case Acquire(cur, l) =>
         && s.threads[cur].pending.None?
         && s.locks[l].holder != Some(cur)
         && WalkEnds(Announce(s, cur, l), cur, l)
       case Resume(cur, l) => s.threads[cur].pending == Some(l) && cur !in s.locks[l].waiters
       case TryAcquire(cur, l) => s.threads[cur].pending.None? && s.locks[l].holder != Some(cur)
       case Release(cur, l) => s.threads[cur].pending.None? && s.locks[l].holder == Some(cur)
       case SetPriority(cur, p) => s.threads[cur].pending.None?
  }

  ghost function Apply(s: State, a: Action): (r: State)
    requires Enabled(s, a)
  {
    match a
    case Acquire(cur, l) => AcquireStep(s, cur, l)
    case Resume(cur, l) => SemaDown(s, cur, l)
    case TryAcquire(cur, l) => TryAcquireStep(s, cur, l)
    case Release(cur, l) => ReleaseStep(s, cur, l)
    case SetPriority(cur, p) => SetPriorityStep(s, cur, p)
  }

  // ---------------------------------------------------------------------------------
  // The invariant

  /** `m` is the maximum of the base priority and the donated ones. */
  ghost predicate IsMax(m: int, base: int, ds: seq<Donation>) {
    && base <= m
    && (forall i :: 0 <= i < |ds| ==> ds[i].priority <= m)
    && (m == base || exists i :: 0 <= i < |ds| && ds[i].priority == m)
  }

  ghost predicate ThreadOk(s: State, t: nat)
    requires t < |s.threads|
  {
    var th := s.threads[t];
    && IsMax(th.priority, th.base, th.donations)
    && Sorted(th.donations, Higher)
    && (forall i :: 0 <= i < |th.donations| ==>
          th.donations[i].lock < |s.locks| && s.locks[th.donations[i].lock].holder == Some(t))
    && (th.pending.Some? ==> th.pending.value < |s.locks| && s.locks[th.pending.value].holder != Some(t))
  }

  ghost predicate LockOk(s: State, l: nat)
    requires l < |s.locks|
  {
    var k := s.locks[l];
    && k.value == (if k.holder.None? then 1 else 0)
    && (k.holder.Some? ==> k.holder.value < |s.threads|)
    && (forall i, j :: 0 <= i < j < |k.waiters| ==> k.waiters[i] != k.waiters[j])
    && (forall i :: 0 <= i < |k.waiters| ==>
          k.waiters[i] < |s.threads| && s.threads[k.waiters[i]].pending == Some(l))
  }

  ghost predicate Inv(s: State) {
    && (forall t :: 0 <= t < |s.threads| ==> ThreadOk(s, t))
    && (forall l :: 0 <= l < |s.locks| ==> LockOk(s, l))
  }

  ghost predicate Initial(s: State) {
    && (forall t :: 0 <= t < |s.threads| ==>
          var th := s.threads[t]; th.priority == th.base && th.donations == [] && th.pending.None?)
    && (forall l :: 0 <= l < |s.locks| ==> s.locks[l] == Lock(None, 1, []))
  }

  ghost predicate HoldsSomeLock(s: State, t: nat) {
    exists l :: 0 <= l < |s.locks| && s.locks[l].holder == Some(t)
  }

  /** A thread that holds no lock is back at its base priority. */
  lemma NoLockNoDonation(s: State, t: nat)
    requires Inv(s) && t < |s.threads|
    ensures !HoldsSomeLock(s, t) ==> s.threads[t].donations == [] && s.threads[t].priority == s.threads[t].base
  {
    assert ThreadOk(s, t);
    var ds := s.threads[t].donations;
    if ds != [] {
      assert s.locks[ds[0].lock].holder == Some(t);
    }
  }

  // ---------------------------------------------------------------------------------
  // Every step keeps the invariant

  lemma SortedQueueOk(s: State, l: nat)
    requires l < |s.locks| && LockOk(s, l)
    ensures LockOk(SortQueue(s, l), l)
  {
    var ws := s.locks[l].waiters;
    var (r, perm) := InsertionSort(ws, ByPriority(s.threads));
    InsertionSortPermutes(ws, ByPriority(s.threads));
    assert SortQueue(s, l).locks[l].waiters == r;
    assert forall i :: 0 <= i < |r| ==> r[i] == ws[perm[i]];
  }

  lemma InsertDonationOk(t: Thread, d: Donation)
    requires Sorted(t.donations, Higher) && IsMax(t.priority, t.base, t.donations) && d.priority >= t.priority
    ensures var ds := InsertDonation(t.donations, d);
            && Sorted(ds, Higher)
            && IsMax(d.priority, t.base, ds)
            && forall i :: 0 <= i < |ds| ==> ds[i] == d || ds[i] in t.donations
  {
    InsertKeepsSorted(t.donations, d, Higher);
    var k := InsertionPoint(t.donations, d, Higher);
    var ds := InsertDonation(t.donations, d);
    assert ds[k] == d;
    forall i | 0 <= i < |ds|
      ensures ds[i] == d || ds[i] in t.donations
    {
      assert i < k ==> ds[i] == t.donations[i];
      assert k < i ==> ds[i] == t.donations[i - 1];
    }
  }

  lemma DonateOnceOk(s: State, cur: nat, x: nat, h: nat)
    requires Inv(s) && x < |s.locks| && s.locks[x].holder == Some(h) && h < |s.threads|
    requires Priority(s, cur) >= s.threads[h].priority
    ensures Inv(DonateOnce(s, cur, x, h))
  {
    var r := DonateOnce(s, cur, x, h);
    forall l | 0 <= l < |r.locks|
      ensures LockOk(r, l)
    {
      assert LockOk(s, l);
      DonateKeepsLock(s, cur, x, h, l);
    }
    forall t | 0 <= t < |r.threads|
      ensures ThreadOk(r, t)
    {
      assert ThreadOk(s, t);
      DonateKeepsThread(s, cur, x, h, t);
    }
  }

  lemma DonateKeepsLock(s: State, cur: nat, x: nat, h: nat, l: nat)
    requires h < |s.threads| && l < |s.locks| && LockOk(s, l)
    ensures LockOk(DonateOnce(s, cur, x, h), l)
  {
    var r := DonateOnce(s, cur, x, h);
    var s' := s.(threads := r.threads);
    assert LockOk(s', l);
    if s.threads[h].pending == Some(l) {
      SortedQueueOk(s', l);
    }
  }

  lemma DonateKeepsHolders(s: State, cur: nat, x: nat, h: nat)
    requires h < |s.threads|
    ensures var r := DonateOnce(s, cur, x, h);
            forall l :: 0 <= l < |s.locks| ==> r.locks[l].holder == s.locks[l].holder
  {
  }

  lemma DonateKeepsThread(s: State, cur: nat, x: nat, h: nat, t: nat)
    requires t < |s.threads| && h < |s.threads| && ThreadOk(s, t)
    requires x < |s.locks| && s.locks[x].holder == Some(h) && Priority(s, cur) >= s.threads[h].priority
    ensures ThreadOk(DonateOnce(s, cur, x, h), t)
  {
    DonateKeepsHolders(s, cur, x, h);
    if t == h {
      InsertDonationOk(s.threads[h], Donation(Priority(s, cur), cur, x));
    }
  }

  /** The walk never changes who holds or waits for what, nor the acquirer's own priority; it
      lowers nobody, and lifts nobody above the acquirer. */
  ghost predicate Walked(s: State, r: State, cur: nat) {
    && |s.threads| == |r.threads| && |s.locks| == |r.locks|
    && Priority(r, cur) == Priority(s, cur)
    && (forall t :: 0 <= t < |s.threads| ==> WalkedThread(s.threads[t], r.threads[t], Priority(s, cur)))
    && (forall l :: 0 <= l < |s.locks| ==> WalkedLock(s.locks[l], r.locks[l]))
  }

  ghost predicate WalkedThread(t: Thread, t': Thread, p: int) {
    && t.pending == t'.pending && t.base == t'.base
    && t.priority <= t'.priority
    && (t'.priority <= p <==> t.priority <= p)
    && forall d :: d in t.donations ==> d in t'.donations
  }

  ghost predicate WalkedLock(k: Lock, k': Lock) {
    && k.holder == k'.holder && k.value == k'.value
    && forall w :: w in k.waiters <==> w in k'.waiters
  }

  lemma DonateOnceWalked(s: State, cur: nat, x: nat, h: nat)
    requires h < |s.threads| && Priority(s, cur) >= s.threads[h].priority
    ensures Walked(s, DonateOnce(s, cur, x, h), cur)
  {
    var r := DonateOnce(s, cur, x, h);
    var ds, d := s.threads[h].donations, Donation(Priority(s, cur), cur, x);
    InsertAtMembers(ds, InsertionPoint(ds, d, Higher), d);
    var q := s.threads[h].pending;
    if q.Some? && q.value < |s.locks| {
      SortKeepsMembers(r.threads, s.locks[q.value].waiters);
    }
  }

  lemma WalkedTransitive(s: State, r: State, u: State, cur: nat)
    requires Walked(s, r, cur) && Walked(r, u, cur)
    ensures Walked(s, u, cur)
  {
    forall t | 0 <= t < |s.threads|
      ensures WalkedThread(s.threads[t], u.threads[t], Priority(s, cur))
    {
      assert WalkedThread(s.threads[t], r.threads[t], Priority(s, cur));
    }
    forall l | 0 <= l < |s.locks|
      ensures WalkedLock(s.locks[l], u.locks[l])
    {
      assert WalkedLock(s.locks[l], r.locks[l]);
    }
  }

  lemma DoneeKept(s: State, r: State, cur: nat, x: nat)
    requires Walked(s, r, cur)
    ensures Donee(r, cur, x) == Donee(s, cur, x)
  {
    if x < |s.locks| && s.locks[x].holder.Some? && s.locks[x].holder.value < |s.threads| {
      assert WalkedLock(s.locks[x], r.locks[x]);
      var h := s.locks[x].holder.value;
      assert WalkedThread(s.threads[h], r.threads[h], Priority(s, cur));
    }
  }

  /** Round `n` of the walk, from `r` to `r'`. */
  lemma WalkRound(s: State, cur: nat, l: nat, n: nat, r: State) returns (r': State)
    requires r == WalkState(s, cur, l, n) && Inv(r) && Walked(s, r, cur)
    ensures r' == WalkState(s, cur, l, n + 1) && Inv(r') && Walked(r, r', cur) && Walked(s, r', cur)
  {
    r' := r;
    var x := WalkLock(s, cur, l, n);
    if x.Some? && Donee(s, cur, x.value).Some? {
      var h := Donee(s, cur, x.value).value;
      DoneeKept(s, r, cur, x.value);
      r' := DonateOnce(r, cur, x.value, h);
      DonateOnceOk(r, cur, x.value, h);
      DonateOnceWalked(r, cur, x.value, h);
      WalkedTransitive(s, r, r', cur);
    }
  }

  lemma {:induction false} WalkStateOk(s: State, cur: nat, l: nat, n: nat) returns (r: State)
    requires Inv(s)
    ensures r == WalkState(s, cur, l, n) && Inv(r) && Walked(s, r, cur)
  {
    r := s;
    if n > 0 {
      r := WalkStateOk(s, cur, l, n - 1);
      r := WalkRound(s, cur, l, n - 1, r);
    }
  }

  lemma SortKeepsMembers(threads: seq<Thread>, ws: seq<nat>)
    ensures forall w :: w in SortWaiters(threads, ws) <==> w in ws
  {
    var (r, perm) := InsertionSort(ws, ByPriority(threads));
    InsertionSortPermutes(ws, ByPriority(threads));
    PermutationCovers(perm, |ws|);
    forall w | w in ws
      ensures w in r
    {
      var j :| 0 <= j < |ws| && ws[j] == w;
      assert j in perm;
      var i :| 0 <= i < |perm| && perm[i] == j;
      assert r[i] == w;
    }
  }

  /** `h` is at or above `cur`'s priority and holds a record of its donation for lock `x`. */
  ghost predicate Raised(s: State, cur: nat, x: nat, h: nat) {
    && h < |s.threads|
    && s.threads[h].priority >= Priority(s, cur)
    && Donation(Priority(s, cur), cur, x) in s.threads[h].donations
  }

  lemma DonateOnceRaises(s: State, cur: nat, x: nat, h: nat)
    requires h < |s.threads| && Priority(s, cur) >= s.threads[h].priority
    ensures Raised(DonateOnce(s, cur, x, h), cur, x, h)
  {
    var ds, d := s.threads[h].donations, Donation(Priority(s, cur), cur, x);
    InsertAtMembers(ds, InsertionPoint(ds, d, Higher), d);
  }

  lemma RaisedKept(s: State, r: State, cur: nat, x: nat, h: nat)
    requires Walked(s, r, cur) && Raised(s, cur, x, h)
    ensures Raised(r, cur, x, h)
  {
    assert WalkedThread(s.threads[h], r.threads[h], Priority(s, cur));
  }

  /** Every holder that the walk visits ends at or above the acquirer, with a record of it. */
  lemma WalkRaises(s: State, cur: nat, l: nat, m: nat, x: nat, h: nat) returns (r: State)
    requires Inv(s)
    requires WalkLock(s, cur, l, m) == Some(x) && Donee(s, cur, x) == Some(h)
    ensures r == WalkState(s, cur, l, m + 1) && Inv(r) && Walked(s, r, cur) && Raised(r, cur, x, h)
  {
    var q := WalkStateOk(s, cur, l, m);
    DoneeKept(s, q, cur, x);
    DonateOnceRaises(q, cur, x, h);
    r := WalkRound(s, cur, l, m, q);
  }

  /** ... and stays so for the rest of the walk. */
  lemma {:induction false} RaisedStays(s: State, cur: nat, l: nat, m: nat, q: State, x: nat, h: nat, n: nat)
    returns (r: State)
    requires q == WalkState(s, cur, l, m) && Inv(q) && Walked(s, q, cur) && Raised(q, cur, x, h) && m <= n
    ensures r == WalkState(s, cur, l, n) && Inv(r) && Walked(s, r, cur) && Raised(r, cur, x, h)
    decreases n - m
  {
    r := q;
    if m < n {
      var p := WalkRound(s, cur, l, m, q);
      RaisedKept(q, p, cur, x, h);
      r := RaisedStays(s, cur, l, m + 1, p, x, h, n);
    }
  }

  lemma InsertAtMembers<X>(s: seq<X>, k: nat, x: X)
    requires k <= |s|
    ensures forall y :: y in InsertAt(s, k, x) <==> y == x || y in s
  {
    var r := InsertAt(s, k, x);
    assert r[k] == x;
    forall i | 0 <= i < |s|
      ensures s[i] in r
    {
      assert s[i] == r[if i < k then i else i + 1];
    }
    forall i | 0 <= i < |r|
      ensures r[i] == x || r[i] in s
    {
      InsertAtIndex(s, k, x, i);
    }
  }

  lemma EnqueueOk(s: State, cur: nat, l: nat)
    requires Inv(s) && cur < |s.threads| && l < |s.locks|
    requires s.locks[l].value == 0 && s.threads[cur].pending == Some(l) && cur !in s.locks[l].waiters
    ensures Inv(SemaDown(s, cur, l))
  {
    var r := SemaDown(s, cur, l);
    var ws := s.locks[l].waiters;
    var k := InsertionPoint(ws, cur, ByPriority(s.threads));
    assert r.locks[l].waiters == InsertAt(ws, k, cur);
    forall x | 0 <= x < |r.locks|
      ensures LockOk(r, x) && r.locks[x].holder == s.locks[x].holder
    {
      assert LockOk(s, x);
    }
    forall t | 0 <= t < |r.threads|
      ensures ThreadOk(r, t)
    {
      assert ThreadOk(s, t);
    }
  }

  /** `cur` becomes the holder of the free lock `l`, and waits for nothing. */
  lemma TakeOk(s: State, r: State, cur: nat, l: nat)
    requires Inv(s) && cur < |s.threads| && l < |s.locks|
    requires s.locks[l].value != 0 && cur !in s.locks[l].waiters
    requires s.threads[cur].pending.None? || s.threads[cur].pending == Some(l)
    requires r.threads == s.threads[cur := s.threads[cur].(pending := None)]
    requires r.locks == s.locks[l := s.locks[l].(value := s.locks[l].value - 1, holder := Some(cur))]
    ensures Inv(r)
  {
    assert LockOk(s, l);
    forall x | 0 <= x < |r.locks|
      ensures LockOk(r, x)
    {
      assert LockOk(s, x);
    }
    forall t | 0 <= t < |r.threads|
      ensures ThreadOk(r, t)
    {
      assert ThreadOk(s, t);
    }
  }

  lemma AnnounceOk(s: State, cur: nat, l: nat)
    requires Inv(s) && Enabled(s, Acquire(cur, l))
    ensures Inv(Announce(s, cur, l)) && cur !in s.locks[l].waiters
  {
    var r := Announce(s, cur, l);
    forall x | 0 <= x < |r.locks|
      ensures LockOk(r, x) && cur !in s.locks[x].waiters
    {
      assert LockOk(s, x);
    }
    forall t | 0 <= t < |r.threads|
      ensures ThreadOk(r, t)
    {
      assert ThreadOk(s, t);
    }
  }

  lemma SemaDownOk(s: State, cur: nat, l: nat)
    requires Inv(s) && cur < |s.threads| && l < |s.locks| && cur !in s.locks[l].waiters
    requires s.threads[cur].pending == Some(l) || (s.threads[cur].pending.None? && s.locks[l].holder.None?)
    ensures Inv(SemaDown(s, cur, l))
  {
    assert LockOk(s, l);
    if s.locks[l].value == 0 {
      EnqueueOk(s, cur, l);
    } else {
      TakeOk(s, SemaDown(s, cur, l), cur, l);
    }
  }

  lemma AcquireOk(s: State, cur: nat, l: nat)
    requires Inv(s) && Enabled(s, Acquire(cur, l))
    ensures Inv(AcquireStep(s, cur, l))
  {
    AnnounceOk(s, cur, l);
    var s0 := Announce(s, cur, l);
    if s.locks[l].holder.Some? {
      var r := WalkStateOk(s0, cur, l, Rounds(s0, cur, l));
      assert WalkedLock(s0.locks[l], r.locks[l]);
      assert WalkedThread(s0.threads[cur], r.threads[cur], Priority(s0, cur));
      SemaDownOk(r, cur, l);
    } else {
      SemaDownOk(s0, cur, l);
    }
  }

  lemma {:induction false} WithoutLockOk(ds: seq<Donation>, l: nat)
    requires Sorted(ds, Higher)
    ensures var r := WithoutLock(ds, l);
            Sorted(r, Higher) && forall d :: d in r <==> d in ds && d.lock != l
  {
    if ds != [] {
      WithoutLockOk(ds[1..], l);
    }
  }

  lemma RecalculatedOk(t: Thread)
    ensures var r := Recalculated(t);
            && Sorted(r.donations, Higher)
            && IsMax(r.priority, r.base, r.donations)
            && r.base == t.base && r.pending == t.pending
            && forall i :: 0 <= i < |r.donations| ==> r.donations[i] in t.donations
  {
    InsertionSortIsStableSort(t.donations, Higher);
    InsertionSortPermutes(t.donations, Higher);
    if t.donations != [] {
      var (ds, perm) := InsertionSort(t.donations, Higher);
      assert ds[0].priority == Recalculated(t).donations[0].priority;
      assert forall i :: 0 < i < |ds| ==> !Higher(ds[i], ds[0]);
    }
  }

  /** `cur` gives up lock `l` and every donation recorded for it. */
  lemma GiveUpOk(s: State, t': Thread, cur: nat, l: nat)
    requires Inv(s) && cur < |s.threads| && l < |s.locks| && s.locks[l].holder == Some(cur)
    requires Sorted(t'.donations, Higher) && IsMax(t'.priority, t'.base, t'.donations)
    requires t'.pending == s.threads[cur].pending
    requires forall i :: 0 <= i < |t'.donations| ==>
               t'.donations[i] in s.threads[cur].donations && t'.donations[i].lock != l
    ensures Inv(State(s.threads[cur := t'], s.locks[l := s.locks[l].(holder := None, value := 1)]))
  {
    var r := State(s.threads[cur := t'], s.locks[l := s.locks[l].(holder := None, value := 1)]);
    forall x | 0 <= x < |r.locks|
      ensures LockOk(r, x)
    {
      assert LockOk(s, x);
    }
    forall u | 0 <= u < |r.threads|
      ensures ThreadOk(r, u)
    {
      assert ThreadOk(s, u) && ThreadOk(s, cur);
    }
  }

  lemma WakeOk(s: State, l: nat)
    requires Inv(s) && l < |s.locks|
    ensures Inv(s.(locks := SemaUp(s, l).locks[l := SemaUp(s, l).locks[l].(value := s.locks[l].value)]))
  {
    var r := s.(locks := SemaUp(s, l).locks[l := SemaUp(s, l).locks[l].(value := s.locks[l].value)]);
    forall x | 0 <= x < |r.locks|
      ensures LockOk(r, x) && r.locks[x].holder == s.locks[x].holder
    {
      assert LockOk(s, x);
      SortedQueueOk(s, l);
    }
    forall u | 0 <= u < |r.threads|
      ensures ThreadOk(r, u)
    {
      assert ThreadOk(s, u);
    }
  }

  /** The thread after lock_release has dropped its donations and recomputed its priority. */
  function Released(t: Thread, l: nat): Thread {
    Recalculated(t.(donations := WithoutLock(t.donations, l)))
  }

  lemma ReleasedOk(s: State, cur: nat, l: nat)
    requires Inv(s) && cur < |s.threads| && l < |s.locks| && s.locks[l].holder == Some(cur)
    ensures Inv(State(s.threads[cur := Released(s.threads[cur], l)],
                      s.locks[l := s.locks[l].(holder := None, value := 1)]))
  {
    var t := s.threads[cur];
    assert ThreadOk(s, cur);
    WithoutLockOk(t.donations, l);
    RecalculatedOk(t.(donations := WithoutLock(t.donations, l)));
    GiveUpOk(s, Released(t, l), cur, l);
  }

  lemma ReleaseShape(s: State, cur: nat, l: nat, s': State)
    requires cur < |s.threads| && l < |s.locks| && s.locks[l].value == 0
    requires s' == State(s.threads[cur := Released(s.threads[cur], l)],
                         s.locks[l := s.locks[l].(holder := None, value := 1)])
    ensures ReleaseStep(s, cur, l) == s'.(locks := SemaUp(s', l).locks[l := SemaUp(s', l).locks[l].(value := 1)])
  {
  }

  lemma ReleaseOk(s: State, cur: nat, l: nat)
    requires Inv(s) && Enabled(s, Release(cur, l))
    ensures Inv(ReleaseStep(s, cur, l))
  {
    assert LockOk(s, l);
    ReleasedOk(s, cur, l);
    var s' := State(s.threads[cur := Released(s.threads[cur], l)],
                    s.locks[l := s.locks[l].(holder := None, value := 1)]);
    WakeOk(s', l);
    ReleaseShape(s, cur, l, s');
  }

  lemma SetPriorityOk(s: State, cur: nat, p: int)
    requires Inv(s) && cur < |s.threads|
    ensures Inv(SetPriorityStep(s, cur, p))
  {
    var r := SetPriorityStep(s, cur, p);
    var ds := s.threads[cur].donations;
    assert ThreadOk(s, cur);
    assert forall i :: 0 < i < |ds| ==> !Higher(ds[i], ds[0]);
    forall x | 0 <= x < |r.locks|
      ensures LockOk(r, x)
    {
      assert LockOk(s, x);
    }
    forall u | 0 <= u < |r.threads|
      ensures ThreadOk(r, u)
    {
      assert ThreadOk(s, u);
    }
  }

  lemma TryAcquireOk(s: State, cur: nat, l: nat)
    requires Inv(s) && Enabled(s, TryAcquire(cur, l))
    ensures Inv(TryAcquireStep(s, cur, l))
  {
    assert LockOk(s, l);
    if s.locks[l].value > 0 {
      var r := TryAcquireStep(s, cur, l);
      assert r.threads == s.threads[cur := s.threads[cur].(pending := None)];
      TakeOk(s, r, cur, l);
    }
  }

  lemma StepKeepsInv(s: State, a: Action)
    requires Inv(s) && Enabled(s, a)
    ensures Inv(Apply(s, a))
  {
    match a
    case Acquire(cur, l) => AcquireOk(s, cur, l);
    case Resume(cur, l) => SemaDownOk(s, cur, l);
    case TryAcquire(cur, l) => TryAcquireOk(s, cur, l);
    case Release(cur, l) => ReleaseOk(s, cur, l);
    case SetPriority(cur, p) => SetPriorityOk(s, cur, p);
  }

  /** A run: each state comes from the one before it by an enabled action. */
  ghost predicate IsRun(run: seq<State>, actions: seq<Action>) {
    && |run| == |actions| + 1
    && Initial(run[0])
    && forall i :: 0 <= i < |actions| ==> Enabled(run[i], actions[i]) && run[i + 1] == Apply(run[i], actions[i])
  }

  /** In every state of every run, priorities are the maximum of base and recorded donations, and
      a thread without locks has its base priority. */
  lemma {:induction false} RunsKeepInv(run: seq<State>, actions: seq<Action>, i: nat)
    requires IsRun(run, actions) && i < |run|
    ensures Inv(run[i])
    ensures forall t :: 0 <= t < |run[i].threads| && !HoldsSomeLock(run[i], t) ==>
              run[i].threads[t].priority == run[i].threads[t].base
  {
    if i == 0 {
      var s := run[0];
      assert forall t :: 0 <= t < |s.threads| ==> ThreadOk(s, t);
    } else {
      RunsKeepInv(run, actions, i - 1);
      StepKeepsInv(run[i - 1], actions[i - 1]);
    }
    forall t | 0 <= t < |run[i].threads| && !HoldsSomeLock(run[i], t)
      ensures run[i].threads[t].priority == run[i].threads[t].base
    {
      NoLockNoDonation(run[i], t);
    }
  }

  // ---------------------------------------------------------------------------------
  // When the walk ends

  lemma {:induction false} WalkOverStaysOver(s: State, cur: nat, l: nat, n: nat, m: nat)
    requires WalkLock(s, cur, l, n).None? && n <= m
    ensures WalkLock(s, cur, l, m).None?
    decreases m
  {
    if n < m {
      WalkOverStaysOver(s, cur, l, n, m - 1);
    }
  }

  lemma {:induction false} WalkRepeats(s: State, cur: nat, l: nat, i: nat, j: nat, k: nat)
    requires WalkLock(s, cur, l, i) == WalkLock(s, cur, l, j)
    ensures WalkLock(s, cur, l, i + k) == WalkLock(s, cur, l, j + k)
  {
    if k > 0 {
      WalkRepeats(s, cur, l, i, j, k - 1);
    }
  }

  lemma {:induction false} WalkInRange(s: State, cur: nat, l: nat, n: nat)
    requires Inv(s) && l < |s.locks|
    ensures WalkLock(s, cur, l, n).Some? ==> WalkLock(s, cur, l, n).value < |s.locks|
  {
    if n > 0 && WalkLock(s, cur, l, n).Some? {
      WalkInRange(s, cur, l, n - 1);
      var h := Donee(s, cur, WalkLock(s, cur, l, n - 1).value).value;
      assert ThreadOk(s, h);
    }
  }

  /** A lock that comes round again comes round for ever. */
  lemma {:induction false} RepeatNeverEnds(s: State, cur: nat, l: nat, i: nat, j: nat, n: nat)
    requires i < j && WalkLock(s, cur, l, i).Some? && WalkLock(s, cur, l, i) == WalkLock(s, cur, l, j)
    ensures WalkLock(s, cur, l, n).Some?
    decreases n
  {
    if n <= j {
      if WalkLock(s, cur, l, n).None? {
        WalkOverStaysOver(s, cur, l, n, j);
      }
    } else {
      RepeatNeverEnds(s, cur, l, i, j, n - (j - i));
      WalkRepeats(s, cur, l, i, j, n - j);
    }
  }

  /** Some lock comes up in two rounds. */
  ghost predicate Revisits(s: State, cur: nat, l: nat) {
    exists i: nat, j: nat :: i < j && WalkLock(s, cur, l, i).Some? && WalkLock(s, cur, l, i) == WalkLock(s, cur, l, j)
  }

  lemma WalkReached(s: State, cur: nat, l: nat, n: nat, m: nat)
    requires WalkLock(s, cur, l, m).Some? && n <= m
    ensures WalkLock(s, cur, l, n).Some?
  {
    if WalkLock(s, cur, l, n).None? {
      WalkOverStaysOver(s, cur, l, n, m);
    }
  }

  /** A walk of `n` rounds without a revisit needs `n` locks. */
  lemma LongWalkNeedsLocks(s: State, cur: nat, l: nat, n: nat)
    requires Inv(s) && l < |s.locks| && !Revisits(s, cur, l)
    requires n > 0 ==> WalkLock(s, cur, l, n - 1).Some?
    ensures n <= |s.locks|
  {
    forall i | 0 <= i < n
      ensures WalkLock(s, cur, l, i).Some? && WalkLock(s, cur, l, i).value < |s.locks|
    {
      WalkReached(s, cur, l, i, n - 1);
      WalkInRange(s, cur, l, i);
    }
    var seen := seq(n, i requires 0 <= i < n => WalkLock(s, cur, l, i).value);
    ImageSize(seen, n);
    SubsetSize(set i | 0 <= i < n :: seen[i], Below(|s.locks|));
  }

  /** The walk ends exactly when it visits no lock twice, and then within as many rounds as there
      are locks. */
  lemma WalkEndsIff(s: State, cur: nat, l: nat)
    requires Inv(s) && l < |s.locks|
    ensures WalkEnds(s, cur, l) <==> !Revisits(s, cur, l)
    ensures WalkEnds(s, cur, l) <==> WalkLock(s, cur, l, |s.locks|).None?
  {
    if Revisits(s, cur, l) {
      var i: nat, j: nat :| i < j && WalkLock(s, cur, l, i).Some? && WalkLock(s, cur, l, i) == WalkLock(s, cur, l, j);
      forall n: nat
        ensures WalkLock(s, cur, l, n).Some?
      {
        RepeatNeverEnds(s, cur, l, i, j, n);
      }
    } else {
      if WalkLock(s, cur, l, |s.locks|).Some? {
        LongWalkNeedsLocks(s, cur, l, |s.locks| + 1);
      }
    }
  }

  lemma SubsetSize(a: set<nat>, b: set<nat>)
    requires a <= b
    ensures |a| <= |b|
  {
    assert b == a + (b - a);
  }

  /** The thread that `t` is stuck behind, `k` links further on. */
  ghost function Ahead(s: State, t: nat, k: nat): Option<nat> {
    if k == 0 then Some(t) else
      match Ahead(s, t, k - 1)
      case None => None
      case Some(u) =>
        if u < |s.threads| && s.threads[u].pending.Some? && s.threads[u].pending.value < |s.locks|
        then s.locks[s.threads[u].pending.value].holder else None
  }

  /** Some thread waits, through any number of locks, for itself. */
  ghost predicate Deadlocked(s: State) {
    exists t: nat, k: nat :: k > 0 && Ahead(s, t, k) == Some(t)
  }

  lemma {:induction false} WalkFollowsHolders(s: State, cur: nat, l: nat, i: nat, h: nat, k: nat)
    requires Inv(s) && l < |s.locks|
    requires WalkLock(s, cur, l, i).Some? && Donee(s, cur, WalkLock(s, cur, l, i).value) == Some(h)
    requires WalkLock(s, cur, l, i + k + 1).Some?
    ensures WalkLock(s, cur, l, i + k).Some?
    ensures Ahead(s, h, k) == Donee(s, cur, WalkLock(s, cur, l, i + k).value)
  {
    if k > 0 {
      assert WalkLock(s, cur, l, i + k).Some?;
      WalkFollowsHolders(s, cur, l, i, h, k - 1);
      WalkInRange(s, cur, l, i + k);
    }
  }

  /** Without a deadlock the donation walk always ends. */
  lemma NoDeadlockWalkEnds(s: State, cur: nat, l: nat)
    requires Inv(s) && l < |s.locks|
    ensures WalkEnds(s, cur, l) || Deadlocked(s)
  {
    WalkEndsIff(s, cur, l);
    if Revisits(s, cur, l) {
      var i: nat, j: nat :| i < j && WalkLock(s, cur, l, i).Some? && WalkLock(s, cur, l, i) == WalkLock(s, cur, l, j);
      CircleIsDeadlock(s, cur, l, i, j);
    }
  }

  lemma CircleIsDeadlock(s: State, cur: nat, l: nat, i: nat, j: nat)
    requires Inv(s) && l < |s.locks|
    requires i < j && WalkLock(s, cur, l, i).Some? && WalkLock(s, cur, l, i) == WalkLock(s, cur, l, j)
    ensures Deadlocked(s)
  {
    RepeatNeverEnds(s, cur, l, i, j, j + 1);
    RepeatNeverEnds(s, cur, l, i, j, i + 1);
    var h := Donee(s, cur, WalkLock(s, cur, l, i).value).value;
    WalkFollowsHolders(s, cur, l, i, h, j - i);
    assert Ahead(s, h, j - i) == Some(h);
  }

  /** The waiter that a release wakes has the highest priority, and is the one that came first in
      the queue among those; the others stay queued. */
  lemma ReleaseWakesHighest(s: State, l: nat)
    requires l < |s.locks| && s.locks[l].waiters != []
    ensures var ws := s.locks[l].waiters;
            exists k :: 0 <= k < |ws|
              && SortWaiters(s.threads, ws) == [ws[k]] + SemaUp(s, l).locks[l].waiters
              && forall i :: 0 <= i < |ws| ==>
                   && Priority(s, ws[i]) <= Priority(s, ws[k])
                   && (i < k ==> Priority(s, ws[i]) < Priority(s, ws[k]))
  {
    var ws, less := s.locks[l].waiters, ByPriority(s.threads);
    var (r, perm) := InsertionSort(ws, less);
    InsertionSortIsStableSort(ws, less);
    InsertionSortPermutes(ws, less);
    var k := perm[0];
    assert r == [ws[k]] + r[1..];
    forall i | 0 <= i < |ws|
      ensures Priority(s, ws[i]) <= Priority(s, ws[k])
      ensures i < k ==> Priority(s, ws[i]) < Priority(s, ws[k])
    {
      FrontIsHighest(ws, r, perm, less, i);
    }
  }

  lemma FrontIsHighest(ws: seq<nat>, r: seq<nat>, perm: seq<nat>, less: (nat, nat) -> bool, i: nat)
    requires i < |ws| == |r| && IsPermutation(perm, |ws|) && Sorted(r, less) && Stable(r, perm, less)
    requires forall j :: 0 <= j < |r| ==> r[j] == ws[perm[j]]
    ensures i == perm[0] || (!less(ws[i], ws[perm[0]]) && (i < perm[0] ==> less(ws[perm[0]], ws[i])))
  {
    PermutationCovers(perm, |ws|);
    assert i in perm;
    var j :| 0 <= j < |perm| && perm[j] == i;
    assert r[j] == ws[i] && r[0] == ws[perm[0]];
    assert j > 0 ==> !less(r[j], r[0]);
  }

  /** Round `n` has nothing to do. */
  ghost predicate Stopped(s: State, cur: nat, l: nat, n: nat) {
    WalkLock(s, cur, l, n).None? || Donee(s, cur, WalkLock(s, cur, l, n).value).None?
  }

  lemma StopStep(s: State, cur: nat, l: nat, n: nat)
    requires Stopped(s, cur, l, n)
    ensures WalkState(s, cur, l, n + 1) == WalkState(s, cur, l, n) && Stopped(s, cur, l, n + 1)
  {
  }

  lemma {:induction false} WalkSettled(s: State, cur: nat, l: nat, n: nat, m: nat)
    requires Stopped(s, cur, l, n) && n <= m
    ensures WalkState(s, cur, l, m) == WalkState(s, cur, l, n) && Stopped(s, cur, l, m)
    decreases m
  {
    if n < m {
      WalkSettled(s, cur, l, n, m - 1);
      StopStep(s, cur, l, m - 1);
    }
  }

  /** However the walk stops, it stops in the state that `Walk` names. */
  lemma WalkIsHere(s: State, cur: nat, l: nat, n: nat)
    requires WalkEnds(s, cur, l)
    requires WalkLock(s, cur, l, n).None? || Donee(s, cur, WalkLock(s, cur, l, n).value).None?
    ensures Walk(s, cur, l) == WalkState(s, cur, l, n)
  {
    var end := Rounds(s, cur, l);
    if n <= end {
      WalkSettled(s, cur, l, n, end);
    } else {
      WalkSettled(s, cur, l, end, n);
    }
  }

  // ---------------------------------------------------------------------------------
  // The kernel's data, updated in place

  class Kernel {
    var threads: seq<Thread>
    var locks: seq<Lock>

    ghost function Value(): State
      reads this
    {
      State(threads, locks)
    }

    ghost predicate Valid()
      reads this
    {
      Inv(Value())
    }

    /** sema_down on the semaphore of lock `l`, up to the point where it blocks. */
    method Down(cur: nat, l: nat)
      requires cur < |threads| && l < |locks|
      modifies this
      ensures Value() == SemaDown(old(Value()), cur, l)
    {
      if locks[l].value == 0 {
        var ws := locks[l].waiters;
        var at := InsertionPoint(ws, cur, ByPriority(threads));
        locks := locks[l := locks[l].(waiters := InsertAt(ws, at, cur))];
      } else {
        locks := locks[l := locks[l].(value := locks[l].value - 1)];
        threads := threads[cur := threads[cur].(pending := None)];
        locks := locks[l := locks[l].(holder := Some(cur))];
      }
    }

    method Donate(cur: nat, x: nat, h: nat)
      requires cur < |threads| && h < |threads|
      modifies this
      ensures Value() == DonateOnce(old(Value()), cur, x, h)
    {
      var p := threads[cur].priority;
      var d := Donation(p, cur, x);
      var t := threads[h];
      if t.priority < p {
        t := t.(priority := p);
      }
      t := t.(donations := InsertDonation(t.donations, d));
      threads := threads[h := t];
      if t.pending.Some? && t.pending.value < |locks| {
        var q := locks[t.pending.value];
        locks := locks[t.pending.value := q.(waiters := SortWaiters(threads, q.waiters))];
      }
    }

    /** The body of the walk: stops, or donates to the holder of `x` and moves on to what that
        thread waits for. */
    method WalkOn(cur: nat, l: nat, x: nat, ghost s0: State, ghost n: nat)
      returns (stop: bool, pending: Option<nat>)
      requires Walking(s0, Value(), cur, l, n) && cur < |threads| && WalkLock(s0, cur, l, n) == Some(x)
      modifies this
      ensures stop <==> Donee(s0, cur, x).None?
      ensures stop ==> Value() == old(Value())
      ensures !stop ==> Walking(s0, Value(), cur, l, n + 1) && pending == WalkLock(s0, cur, l, n + 1)
      ensures n < Rounds(s0, cur, l)
    {
      WalkHere(s0, Value(), cur, l, n, x);
      pending := None;
      var holder := locks[x].holder;
      stop := holder.None? || threads[cur].priority < threads[holder.value].priority;
      if !stop {
        Donate(cur, x, holder.value);
        pending := threads[holder.value].pending;
      }
    }

    /** The donation walk of lock_acquire, from the lock that `cur` waits for. */
    method DonationWalk(cur: nat, l: nat)
      requires Valid() && cur < |threads| && l < |locks| && WalkEnds(Value(), cur, l)
      modifies this
      ensures Value() == Walk(old(Value()), cur, l)
    {
      var pending := Some(l);
      ghost var s0, n := Value(), 0;
      while pending.Some?
        invariant n >= 0 && Walking(s0, Value(), cur, l, n) && pending == WalkLock(s0, cur, l, n)
        decreases Rounds(s0, cur, l) - n
      {
        var stop, next := WalkOn(cur, l, pending.value, s0, n);
        if stop {
          break;
        }
        pending := next;
        n := n + 1;
      }
      WalkIsHere(s0, cur, l, n);
    }

    method LockAcquire(cur: nat, l: nat)
      requires Valid() && Enabled(Value(), Acquire(cur, l))
      modifies this
      ensures Value() == AcquireStep(old(Value()), cur, l) && Valid()
    {
      AcquireOk(Value(), cur, l);
      AnnounceOk(Value(), cur, l);
      if locks[l].holder.Some? {
        threads := threads[cur := threads[cur].(pending := Some(l))];
        DonationWalk(cur, l);
      }
      Down(cur, l);
    }

    method LockTryAcquire(cur: nat, l: nat) returns (success: bool)
      requires Valid() && Enabled(Value(), TryAcquire(cur, l))
      modifies this
      ensures Value() == TryAcquireStep(old(Value()), cur, l) && Valid()
      ensures success <==> old(locks)[l].holder.None?
    {
      TryAcquireOk(Value(), cur, l);
      assert LockOk(Value(), l);
      success := locks[l].value > 0;
      if success {
        locks := locks[l := locks[l].(value := locks[l].value - 1)];
        locks := locks[l := locks[l].(holder := Some(cur))];
      }
    }

    /** remove_donation_for_lock: walks the list and unlinks the records for `l`. */
    method RemoveDonations(cur: nat, l: nat)
      requires cur < |threads|
      modifies this`threads
      ensures threads == old(threads)[cur := old(threads)[cur].(donations := WithoutLock(old(threads)[cur].donations, l))]
    {
      var ds := threads[cur].donations;
      ghost var want := WithoutLock(ds, l);
      var i := 0;
      while i < |ds|
        invariant 0 <= i <= |ds|
        invariant ds[..i] + WithoutLock(ds[i..], l) == want
        decreases |ds| - i
      {
        if ds[i].lock == l {
          assert ds[i..][1..] == (ds[..i] + ds[i + 1..])[i..];
          ds := ds[..i] + ds[i + 1..];
        } else {
          assert ds[i..][1..] == ds[i + 1..] && ds[..i + 1] == ds[..i] + [ds[i]];
          i := i + 1;
        }
      }
      assert ds[..i] + [] == ds;
      threads := threads[cur := threads[cur].(donations := ds)];
    }

    method RecalcPriority(cur: nat)
      requires cur < |threads|
      modifies this`threads
      ensures threads == old(threads)[cur := Recalculated(old(threads)[cur])]
    {
      var t := threads[cur];
      t := t.(priority := t.base);
      if t.donations != [] {
        t := t.(donations := InsertionSort(t.donations, Higher).0);
        if t.priority < t.donations[0].priority {
          t := t.(priority := t.donations[0].priority);
        }
      }
      threads := threads[cur := t];
    }

    /** sema_up on the semaphore of lock `l`. */
    method Up(l: nat)
      requires l < |locks|
      modifies this`locks
      ensures Value() == SemaUp(old(Value()), l)
    {
      if locks[l].waiters != [] {
        var queue := SortWaiters(threads, locks[l].waiters);
        locks := locks[l := locks[l].(waiters := queue[1..])];
      }
      locks := locks[l := locks[l].(value := locks[l].value + 1)];
    }

    method LockRelease(cur: nat, l: nat)
      requires Valid() && Enabled(Value(), Release(cur, l))
      modifies this
      ensures Value() == ReleaseStep(old(Value()), cur, l) && Valid()
    {
      ReleaseOk(Value(), cur, l);
      RemoveDonations(cur, l);
      RecalcPriority(cur);
      locks := locks[l := locks[l].(holder := None)];
      assert threads == old(threads)[cur := Released(old(threads)[cur], l)];
      Up(l);
    }

    /** thread_set_priority. */
    method SetBasePriority(cur: nat, p: int)
      requires Valid() && Enabled(Value(), SetPriority(cur, p))
      modifies this
      ensures Value() == SetPriorityStep(old(Value()), cur, p) && Valid()
    {
      SetPriorityOk(Value(), cur, p);
      var t := threads[cur].(base := p);
      if t.donations == [] {
        t := t.(priority := p);
      } else if t.donations[0].priority > p {
        t := t.(priority := t.donations[0].priority);
      } else {
        t := t.(priority := p);
      }
      threads := threads[cur := t];
    }
  }

  /** `v` is where the walk that began in `s` stands before round `n`. */
  ghost predicate Walking(s: State, v: State, cur: nat, l: nat, n: nat) {
    && Inv(s) && l < |s.locks| && WalkEnds(s, cur, l)
    && v == WalkState(s, cur, l, n) && Inv(v) && Walked(s, v, cur)
  }

  /** What round `n` of the walk sees and does in the state `v` that it has reached. */
  lemma WalkHere(s: State, v: State, cur: nat, l: nat, n: nat, x: nat)
    requires Walking(s, v, cur, l, n) && WalkLock(s, cur, l, n) == Some(x)
    ensures n < Rounds(s, cur, l) && x < |v.locks|
    ensures v.locks[x].holder.Some? ==> v.locks[x].holder.value < |v.threads|
    ensures Donee(s, cur, x) == Donee(v, cur, x)
    ensures Donee(s, cur, x).Some? ==>
              var h := Donee(s, cur, x).value;
              var v' := DonateOnce(v, cur, x, h);
              Walking(s, v', cur, l, n + 1) && v'.threads[h].pending == WalkLock(s, cur, l, n + 1)
  {
    WalkInRange(s, cur, l, n);
    DoneeKept(s, v, cur, x);
    assert LockOk(v, x);
    RoundsAhead(s, cur, l, n);
    if Donee(s, cur, x).Some? {
      var v' := WalkRound(s, cur, l, n, v);
      var h := Donee(s, cur, x).value;
      assert WalkedThread(s.threads[h], v'.threads[h], Priority(s, cur));
    }
  }

  lemma RoundsAhead(s: State, cur: nat, l: nat, n: nat)
    requires WalkEnds(s, cur, l) && WalkLock(s, cur, l, n).Some?
    ensures n < Rounds(s, cur, l)
  {
    if Rounds(s, cur, l) <= n {
      WalkOverStaysOver(s, cur, l, Rounds(s, cur, l), n);
    }
  }

  lemma WholeWalkRaises(s: State, cur: nat, l: nat, m: nat, x: nat, h: nat, n: nat) returns (r: State)
    requires Inv(s) && m < n && WalkLock(s, cur, l, m) == Some(x) && Donee(s, cur, x) == Some(h)
    ensures r == WalkState(s, cur, l, n) && Walked(s, r, cur) && Raised(r, cur, x, h)
  {
    var q := WalkRaises(s, cur, l, m, x, h);
    r := RaisedStays(s, cur, l, m + 1, q, x, h, n);
  }

  /** After a lock_acquire that blocks, every holder on the walk is at or above the acquirer. */
  lemma AcquireRaises(s: State, cur: nat, l: nat, m: nat, x: nat, h: nat)
    requires Inv(s) && Enabled(s, Acquire(cur, l)) && s.locks[l].holder.Some?
    requires WalkLock(Announce(s, cur, l), cur, l, m) == Some(x)
    requires Donee(Announce(s, cur, l), cur, x) == Some(h)
    ensures Raised(AcquireStep(s, cur, l), cur, x, h)
  {
    AnnounceOk(s, cur, l);
    var s0 := Announce(s, cur, l);
    RoundsAhead(s0, cur, l, m);
    var r := WholeWalkRaises(s0, cur, l, m, x, h, Rounds(s0, cur, l));
    assert WalkedLock(s0.locks[l], r.locks[l]) && LockOk(s0, l);
  }

  /** A thread that has just blocked in lock_acquire never waits behind a lower priority. */
  lemma BlockedBehindNoLower(s: State, cur: nat, l: nat)
    requires Inv(s) && Enabled(s, Acquire(cur, l)) && s.locks[l].holder.Some?
    ensures var r := AcquireStep(s, cur, l);
            r.locks[l].holder == s.locks[l].holder
            && Priority(r, r.locks[l].holder.value) >= Priority(r, cur)
  {
    AnnounceOk(s, cur, l);
    var s0 := Announce(s, cur, l);
    assert LockOk(s0, l);
    var h := s.locks[l].holder.value;
    var r := WalkStateOk(s0, cur, l, Rounds(s0, cur, l));
    assert WalkedLock(s0.locks[l], r.locks[l]);
    assert WalkedThread(s0.threads[h], r.threads[h], Priority(s0, cur));
    if Donee(s0, cur, l).Some? {
      AcquireRaises(s, cur, l, 0, l, h);
    }
  }

  // ---------------------------------------------------------------------------------
  // When waiters are covered

  /** No waiter of lock `l` is above `p`. */
  ghost predicate NoneAbove(s: State, l: nat, p: int)
    requires l < |s.locks|
  {
    forall u :: u in s.locks[l].waiters ==> Priority(s, u) <= p
  }

  ghost predicate LockCovered(s: State, l: nat) {
    l < |s.locks| && s.locks[l].holder.Some? ==> NoneAbove(s, l, Priority(s, s.locks[l].holder.value))
  }

  /** The ideal: every waiter's priority is covered by the holder of the lock that it waits for. */
  ghost predicate WaitersCovered(s: State) {
    forall l: nat {:trigger LockCovered(s, l)} :: LockCovered(s, l)
  }

  /** Some record of `t` for a lock other than `but` is at least `p`, or the base is. */
  ghost predicate StillAtLeast(t: Thread, base: int, but: Option<nat>, p: int) {
    p <= base || exists d :: d in t.donations && but != Some(d.lock) && p <= d.priority
  }

  /** What `cur` keeps covers every waiter of the locks it still holds. */
  ghost predicate KeepsCovering(s: State, cur: nat, base: int, but: Option<nat>)
    requires cur < |s.threads|
  {
    forall x: nat, u: nat :: x < |s.locks| && but != Some(x) && s.locks[x].holder == Some(cur) && u in s.locks[x].waiters ==>
      StillAtLeast(s.threads[cur], base, but, Priority(s, u))
  }

  /** What a step must meet for the ideal to survive it: who takes a lock must not be below a thread queued for it; who
      queues up again must not be above the holder, for it donates nothing; who releases a lock, or lowers its base, must
      keep enough for the waiters that recorded nothing. */
  ghost predicate Guard(s: State, a: Action)
    requires Enabled(s, a)
  {
    match a
    case Acquire(cur, l) => s.locks[l].holder.None? ==> NoneAbove(s, l, Priority(s, cur))
    case TryAcquire(cur, l) => s.locks[l].holder.None? ==> NoneAbove(s, l, Priority(s, cur))
    case Resume(cur, l) =>
      if s.locks[l].holder.None? then NoneAbove(s, l, Priority(s, cur))
      else Priority(s, cur) <= Priority(s, s.locks[l].holder.value)
    case Release(cur, l) => KeepsCovering(s, cur, s.threads[cur].base, Some(l))
    case SetPriority(cur, p) => KeepsCovering(s, cur, p, None)
  }

  /** Taking a free lock. */
  lemma TakeCovers(s: State, r: State, cur: nat, l: nat)
    requires Inv(s) && WaitersCovered(s) && cur < |s.threads| && l < |s.locks|
    requires |r.threads| == |s.threads| && (forall t: nat :: Priority(r, t) == Priority(s, t))
    requires exists v :: r.locks == s.locks[l := Lock(Some(cur), v, s.locks[l].waiters)]
    ensures WaitersCovered(r) <==> NoneAbove(s, l, Priority(s, cur))
  {
    assert r.locks[l].waiters == s.locks[l].waiters;
    if NoneAbove(s, l, Priority(s, cur)) {
      forall x: nat ensures LockCovered(r, x) { assert LockCovered(s, x); }
    } else {
      assert !LockCovered(r, l);
    }
  }

  /** Joining the queue of a held lock. */
  lemma JoinCovers(s: State, cur: nat, l: nat)
    requires WaitersCovered(s) && cur < |s.threads| && l < |s.locks| && s.locks[l].value == 0 && s.locks[l].holder.Some?
    ensures WaitersCovered(SemaDown(s, cur, l)) <==> Priority(s, cur) <= Priority(s, s.locks[l].holder.value)
  {
    var r := SemaDown(s, cur, l);
    InsertAtMembers(s.locks[l].waiters, InsertionPoint(s.locks[l].waiters, cur, ByPriority(s.threads)), cur);
    assert LockCovered(s, l);
    if Priority(s, cur) <= Priority(s, s.locks[l].holder.value) {
      forall x: nat ensures LockCovered(r, x) { assert LockCovered(s, x); }
    } else {
      assert !LockCovered(r, l);
    }
  }

  /** A thread that the walk changes is one of its donees. */
  lemma {:induction false} ChangedIsVisited(s: State, cur: nat, l: nat, n: nat, u: nat) returns (m: nat)
    requires Priority(WalkState(s, cur, l, n), u) != Priority(s, u)
    ensures m < n && WalkLock(s, cur, l, m).Some? && Donee(s, cur, WalkLock(s, cur, l, m).value) == Some(u)
    decreases n
  {
    NoRounds(s, cur, l);
    m := n - 1;
    if Priority(WalkState(s, cur, l, m), u) != Priority(s, u) {
      m := ChangedIsVisited(s, cur, l, n - 1, u);
    } else {
      RoundChanges(s, cur, l, m, u);
    }
  }

  lemma NoRounds(s: State, cur: nat, l: nat)
    ensures WalkState(s, cur, l, 0) == s
  {
  }

  lemma RoundChanges(s: State, cur: nat, l: nat, m: nat, u: nat)
    requires Priority(WalkState(s, cur, l, m + 1), u) != Priority(WalkState(s, cur, l, m), u)
    ensures WalkLock(s, cur, l, m).Some? && Donee(s, cur, WalkLock(s, cur, l, m).value) == Some(u)
  {
  }

  /** A whole walk keeps every waiter covered: whom it raises, it follows to the lock that thread waits for. */
  lemma WalkCovers(s: State, cur: nat, l: nat, r: State)
    requires Inv(s) && WaitersCovered(s) && cur < |s.threads| && l < |s.locks| && WalkEnds(s, cur, l)
    requires r == Walk(s, cur, l) && Walked(s, r, cur)
    ensures WaitersCovered(r)
  {
    forall y: nat ensures LockCovered(r, y) {
      assert LockCovered(s, y);
      if y < |s.locks| && s.locks[y].holder.Some? {
        assert WalkedLock(s.locks[y], r.locks[y]) && LockOk(s, y);
        forall u | u in r.locks[y].waiters ensures Priority(r, u) <= Priority(r, r.locks[y].holder.value) {
          WaiterStaysCovered(s, cur, l, r, y, u);
        }
      }
    }
  }

  lemma WaiterStaysCovered(s: State, cur: nat, l: nat, r: State, y: nat, u: nat)
    requires Inv(s) && LockCovered(s, y) && cur < |s.threads| && l < |s.locks| && WalkEnds(s, cur, l)
    requires r == Walk(s, cur, l) && Walked(s, r, cur) && y < |s.locks| && s.locks[y].holder.Some? && u in s.locks[y].waiters
    ensures Priority(r, u) <= Priority(r, s.locks[y].holder.value)
  {
    assert LockOk(s, y);
    var h, n := s.locks[y].holder.value, Rounds(s, cur, l);
    assert u < |s.threads| && s.threads[u].pending == Some(y);
    assert WalkedThread(s.threads[u], r.threads[u], Priority(s, cur));
    assert WalkedThread(s.threads[h], r.threads[h], Priority(s, cur));
    if Priority(r, u) != Priority(s, u) {
      var m := ChangedIsVisited(s, cur, l, n, u);
      assert WalkLock(s, cur, l, m + 1) == Some(y);
      if Donee(s, cur, y) == Some(h) {
        RoundsAhead(s, cur, l, m + 1);
        var w := WholeWalkRaises(s, cur, l, m + 1, y, h, n);
      }
    }
  }

  lemma AcquireCovers(s: State, cur: nat, l: nat)
    requires Inv(s) && WaitersCovered(s) && Enabled(s, Acquire(cur, l))
    ensures WaitersCovered(AcquireStep(s, cur, l)) <==> Guard(s, Acquire(cur, l))
  {
    var s0 := Announce(s, cur, l);
    AnnounceOk(s, cur, l);
    assert LockOk(s, l);
    forall x: nat ensures LockCovered(s0, x) { assert LockCovered(s, x); }
    if s.locks[l].holder.Some? {
      var r := WalkStateOk(s0, cur, l, Rounds(s0, cur, l));
      WalkCovers(s0, cur, l, r);
      assert WalkedLock(s0.locks[l], r.locks[l]);
      BlockedBehindNoLower(s, cur, l);
      JoinCovers(r, cur, l);
    } else {
      TakeCovers(s, SemaDown(s, cur, l), cur, l);
    }
  }

  /** The priority left after a release or a new base, by the records that are left. */
  lemma LeftOver(t: Thread, t': Thread, base: int, but: Option<nat>, p: int)
    requires IsMax(t'.priority, base, t'.donations)
    requires forall d :: d in t'.donations <==> d in t.donations && but != Some(d.lock)
    ensures p <= t'.priority <==> StillAtLeast(t, base, but, p)
  {
    if p <= t'.priority && p > base {
      var i :| 0 <= i < |t'.donations| && t'.donations[i].priority == t'.priority;
      assert t'.donations[i] in t'.donations;
    }
    if StillAtLeast(t, base, but, p) && p > base {
      var d :| d in t.donations && but != Some(d.lock) && p <= d.priority;
      assert d in t'.donations;
    }
  }

  /** A running thread's priority changes, and with it what it covers; it waits for nothing itself. */
  lemma LowerCovers(s: State, r: State, cur: nat, t': Thread, base: int, but: Option<nat>)
    requires Inv(s) && WaitersCovered(s) && cur < |s.threads| && s.threads[cur].pending.None? && |r.locks| == |s.locks|
    requires r.threads == s.threads[cur := t']
    requires forall p :: p <= t'.priority <==> StillAtLeast(s.threads[cur], base, but, p)
    requires forall x: nat :: x < |s.locks| && but != Some(x) ==> r.locks[x] == s.locks[x]
    requires forall x: nat :: but == Some(x) && x < |s.locks| ==> r.locks[x].holder.None?
    ensures WaitersCovered(r) <==> KeepsCovering(s, cur, base, but)
  {
    forall x: nat, u | x < |s.locks| && u in s.locks[x].waiters ensures u < |s.threads| && u != cur && Priority(r, u) == Priority(s, u) {
      assert LockOk(s, x);
    }
    if WaitersCovered(r) {
      forall x: nat, u: nat | x < |s.locks| && but != Some(x) && s.locks[x].holder == Some(cur) && u in s.locks[x].waiters
        ensures StillAtLeast(s.threads[cur], base, but, Priority(s, u))
      {
        assert LockCovered(r, x);
      }
    }
    if KeepsCovering(s, cur, base, but) {
      forall x: nat ensures LockCovered(r, x) {
        assert LockCovered(s, x);
        if x < |s.locks| { assert LockOk(s, x); }
      }
    }
  }

  /** recalc_priority keeps exactly the records it finds. */
  lemma RecalculatedMembers(t: Thread)
    ensures forall d :: d in Recalculated(t).donations <==> d in t.donations
  {
    InsertionSortPermutes(t.donations, Higher);
    if t.donations != [] {
      var (ds, perm) := InsertionSort(t.donations, Higher);
      PermutationCovers(perm, |t.donations|);
      forall d | d in t.donations ensures d in ds {
        var i :| 0 <= i < |t.donations| && t.donations[i] == d;
        assert i in perm;
        var j :| 0 <= j < |perm| && perm[j] == i;
        assert ds[j] == d;
      }
    }
  }

  lemma ReleaseCovers(s: State, cur: nat, l: nat)
    requires Inv(s) && WaitersCovered(s) && Enabled(s, Release(cur, l))
    ensures WaitersCovered(ReleaseStep(s, cur, l)) <==> Guard(s, Release(cur, l))
  {
    var t := s.threads[cur];
    var u := t.(donations := WithoutLock(t.donations, l));
    assert ThreadOk(s, cur);
    WithoutLockOk(t.donations, l);
    RecalculatedOk(u);
    RecalculatedMembers(u);
    forall p ensures p <= Recalculated(u).priority <==> StillAtLeast(t, t.base, Some(l), p) {
      LeftOver(t, Recalculated(u), t.base, Some(l), p);
    }
    LowerCovers(s, ReleaseStep(s, cur, l), cur, Recalculated(u), t.base, Some(l));
  }

  lemma SetPriorityCovers(s: State, cur: nat, p: int)
    requires Inv(s) && WaitersCovered(s) && Enabled(s, SetPriority(cur, p))
    ensures WaitersCovered(SetPriorityStep(s, cur, p)) <==> Guard(s, SetPriority(cur, p))
  {
    var r := SetPriorityStep(s, cur, p);
    SetPriorityOk(s, cur, p);
    assert ThreadOk(r, cur);
    forall q ensures q <= r.threads[cur].priority <==> StillAtLeast(s.threads[cur], p, None, q) {
      LeftOver(s.threads[cur], r.threads[cur], p, None, q);
    }
    LowerCovers(s, r, cur, r.threads[cur], p, None);
  }

  lemma TryAcquireCovers(s: State, cur: nat, l: nat)
    requires Inv(s) && WaitersCovered(s) && Enabled(s, TryAcquire(cur, l))
    ensures WaitersCovered(TryAcquireStep(s, cur, l)) <==> Guard(s, TryAcquire(cur, l))
  {
    assert LockOk(s, l);
    if s.locks[l].holder.None? { TakeCovers(s, TryAcquireStep(s, cur, l), cur, l); }
  }

  lemma ResumeCovers(s: State, cur: nat, l: nat)
    requires Inv(s) && WaitersCovered(s) && Enabled(s, Resume(cur, l))
    ensures WaitersCovered(SemaDown(s, cur, l)) <==> Guard(s, Resume(cur, l))
  {
    assert LockOk(s, l);
    if s.locks[l].holder.None? { TakeCovers(s, SemaDown(s, cur, l), cur, l); } else { JoinCovers(s, cur, l); }
  }

  /** From a covered state, a step leads to a covered state if and only if it meets its guard. */
  lemma CoveredStepIff(s: State, a: Action)
    requires Inv(s) && WaitersCovered(s) && Enabled(s, a)
    ensures WaitersCovered(Apply(s, a)) <==> Guard(s, a)
  {
    match a
    case Acquire(cur, l) => AcquireCovers(s, cur, l);
    case Resume(cur, l) => ResumeCovers(s, cur, l);
    case TryAcquire(cur, l) => TryAcquireCovers(s, cur, l);
    case Release(cur, l) => ReleaseCovers(s, cur, l);
    case SetPriority(cur, p) => SetPriorityCovers(s, cur, p);
  }

  ghost predicate GuardedAt(run: seq<State>, actions: seq<Action>, i: nat) {
    i < |actions| && i < |run| && Enabled(run[i], actions[i]) ==> Guard(run[i], actions[i])
  }

  /** Waiters are covered in every state of a run if and only if every step of it meets its guard. */
  lemma RunsCoveredIff(run: seq<State>, actions: seq<Action>)
    requires IsRun(run, actions)
    ensures (forall i :: 0 <= i < |run| ==> WaitersCovered(run[i])) <==>
            (forall i: nat {:trigger GuardedAt(run, actions, i)} :: GuardedAt(run, actions, i))
  {
    if forall i :: 0 <= i < |run| ==> WaitersCovered(run[i]) {
      forall i: nat ensures GuardedAt(run, actions, i) {
        if i < |actions| {
          RunsKeepInv(run, actions, i);
          assert WaitersCovered(run[i]) && WaitersCovered(run[i + 1]);
          CoveredStepIff(run[i], actions[i]);
        }
      }
    }
    if forall i: nat {:trigger GuardedAt(run, actions, i)} :: GuardedAt(run, actions, i) {
      forall i | 0 <= i < |run| ensures WaitersCovered(run[i]) { GuardedRun(run, actions, i); }
    }
  }

  lemma {:induction false} GuardedRun(run: seq<State>, actions: seq<Action>, i: nat)
    requires IsRun(run, actions) && i < |run|
    requires forall k: nat {:trigger GuardedAt(run, actions, k)} :: GuardedAt(run, actions, k)
    ensures WaitersCovered(run[i])
  {
    if i == 0 {
      forall l: nat ensures LockCovered(run[0], l) {}
    } else {
      GuardedRun(run, actions, i - 1);
      RunsKeepInv(run, actions, i - 1);
      assert GuardedAt(run, actions, i - 1);
      CoveredStepIff(run[i - 1], actions[i - 1]);
    }
  }

  /** All three kinds of failure happen.  A woken waiter of priority 40 that finds the lock taken
      by a thread of priority 5 queues up again without donating. */
  lemma WaitersNotAlwaysCovered()
    ensures IsRun([Free, Taken, Lent, Returned, Stolen, Inverted],
                  [Acquire(0, 0), Acquire(1, 0), Release(0, 0), Acquire(2, 0), Resume(1, 0)])
    ensures !WaitersCovered(Inverted)
  {
    InversionStart();
    InversionLent();
    InversionReturned();
    InversionEnd();
    FiveSteps(Free, Taken, Lent, Returned, Stolen, Inverted,
              Acquire(0, 0), Acquire(1, 0), Release(0, 0), Acquire(2, 0), Resume(1, 0));
    InvertedNotCovered();
  }

  lemma FiveSteps(s0: State, s1: State, s2: State, s3: State, s4: State, s5: State,
                  a0: Action, a1: Action, a2: Action, a3: Action, a4: Action)
    requires Initial(s0)
    requires Enabled(s0, a0) && s1 == Apply(s0, a0)
    requires Enabled(s1, a1) && s2 == Apply(s1, a1)
    requires Enabled(s2, a2) && s3 == Apply(s2, a2)
    requires Enabled(s3, a3) && s4 == Apply(s3, a3)
    requires Enabled(s4, a4) && s5 == Apply(s4, a4)
    ensures IsRun([s0, s1, s2, s3, s4, s5], [a0, a1, a2, a3, a4])
  {
  }

  lemma InvertedNotCovered()
    ensures !WaitersCovered(Inverted)
  {
    assert Inverted.locks[0].waiters[0] == 1;
    assert Priority(Inverted, 1) == 40 && Priority(Inverted, 2) == 5;
    assert !LockCovered(Inverted, 0);
  }

  const T0 := Thread(10, 10, [], None)
  const T1 := Thread(40, 40, [], None)
  const T2 := Thread(5, 5, [], None)
  const T0Lent := Thread(10, 40, [Donation(40, 1, 0)], None)
  const T1Waits := Thread(40, 40, [], Some(0))

  const Free := State([T0, T1, T2], [Lock(None, 1, [])])
  const Taken := State([T0, T1, T2], [Lock(Some(0), 0, [])])
  const Lent := State([T0Lent, T1Waits, T2], [Lock(Some(0), 0, [1])])
  const Returned := State([T0, T1Waits, T2], [Lock(None, 1, [])])
  const Stolen := State([T0, T1Waits, T2], [Lock(Some(2), 0, [])])
  const Inverted := State([T0, T1Waits, T2], [Lock(Some(2), 0, [1])])

  lemma InversionStart()
    ensures Enabled(Free, Acquire(0, 0)) && Apply(Free, Acquire(0, 0)) == Taken
  {
    assert WalkLock(Free, 0, 0, 1).None?;
  }

  lemma InversionLent()
    ensures Enabled(Taken, Acquire(1, 0)) && Apply(Taken, Acquire(1, 0)) == Lent
  {
    var a := State([T0, T1Waits, T2], [Lock(Some(0), 0, [])]);
    assert Announce(Taken, 1, 0) == a;
    assert WalkLock(a, 1, 0, 1).None?;
    WalkIsHere(a, 1, 0, 1);
    assert WalkState(a, 1, 0, 0) == a && Donee(a, 1, 0) == Some(0);
    assert InsertDonation([], Donation(40, 1, 0)) == [Donation(40, 1, 0)];
    var w := State([T0Lent, T1Waits, T2], [Lock(Some(0), 0, [])]);
    assert WalkState(a, 1, 0, 1) == w;
    EmptyQueue(w.threads, 1);
  }

  lemma InversionReturned()
    ensures Enabled(Lent, Release(0, 0)) && Apply(Lent, Release(0, 0)) == Returned
  {
    assert WithoutLock(T0Lent.donations, 0) == [];
    assert SortWaiters(Returned.threads, [1]) == [1];
  }

  lemma InversionEnd()
    ensures Enabled(Returned, Acquire(2, 0)) && Apply(Returned, Acquire(2, 0)) == Stolen
    ensures Enabled(Stolen, Resume(1, 0)) && Apply(Stolen, Resume(1, 0)) == Inverted
  {
    assert WalkLock(Returned, 2, 0, 1).None?;
    EmptyQueue(Stolen.threads, 1);
  }

  lemma EmptyQueue(threads: seq<Thread>, t: nat)
    ensures InsertAt([], InsertionPoint([], t, ByPriority(threads)), t) == [t]
  {
  }

  // A thread of base 10 holds two locks; 20 waits for the first and lends, 15 waits for the second and lends nothing.
  const B0 := Thread(10, 10, [], None)
  const B1 := Thread(20, 20, [], None)
  const B2 := Thread(15, 15, [], None)
  const B0Lent := Thread(10, 20, [Donation(20, 1, 0)], None)
  const B1Waits := Thread(20, 20, [], Some(0))
  const B2Waits := Thread(15, 15, [], Some(1))

  const Two0 := State([B0, B1, B2], [Lock(None, 1, []), Lock(None, 1, [])])
  const Two1 := State([B0, B1, B2], [Lock(Some(0), 0, []), Lock(None, 1, [])])
  const Two2 := State([B0, B1, B2], [Lock(Some(0), 0, []), Lock(Some(0), 0, [])])
  const Two3 := State([B0Lent, B1Waits, B2], [Lock(Some(0), 0, [1]), Lock(Some(0), 0, [])])
  const Two4 := State([B0Lent, B1Waits, B2Waits], [Lock(Some(0), 0, [1]), Lock(Some(0), 0, [2])])
  const Two5 := State([B0, B1Waits, B2Waits], [Lock(None, 1, []), Lock(Some(0), 0, [2])])

  /** Releasing the first lock drops the holder of the second below the waiter that recorded nothing. */
  lemma ReleaseUncovers()
    ensures IsRun([Two0, Two1, Two2, Two3, Two4, Two5],
                  [Acquire(0, 0), Acquire(0, 1), Acquire(1, 0), Acquire(2, 1), Release(0, 0)])
    ensures WaitersCovered(Two4) && !WaitersCovered(Two5)
  {
    TwoTaken();
    TwoLent();
    TwoLower();
    TwoReleased();
    FiveSteps(Two0, Two1, Two2, Two3, Two4, Two5, Acquire(0, 0), Acquire(0, 1), Acquire(1, 0), Acquire(2, 1), Release(0, 0));
    TwoCovered();
  }

  lemma TwoTaken()
    ensures Enabled(Two0, Acquire(0, 0)) && Apply(Two0, Acquire(0, 0)) == Two1
    ensures Enabled(Two1, Acquire(0, 1)) && Apply(Two1, Acquire(0, 1)) == Two2
  {
    assert WalkLock(Two0, 0, 0, 1).None?;
    assert WalkLock(Two1, 0, 1, 1).None?;
  }

  lemma TwoLent()
    ensures Enabled(Two2, Acquire(1, 0)) && Apply(Two2, Acquire(1, 0)) == Two3
  {
    var a := State([B0, B1Waits, B2], Two2.locks);
    assert Announce(Two2, 1, 0) == a;
    assert WalkLock(a, 1, 0, 1).None?;
    WalkIsHere(a, 1, 0, 1);
    assert WalkState(a, 1, 0, 0) == a && Donee(a, 1, 0) == Some(0);
    assert InsertDonation([], Donation(20, 1, 0)) == [Donation(20, 1, 0)];
    var w := State([B0Lent, B1Waits, B2], Two2.locks);
    assert WalkState(a, 1, 0, 1) == w;
    EmptyQueue(w.threads, 1);
  }

  lemma TwoLower()
    ensures Enabled(Two3, Acquire(2, 1)) && Apply(Two3, Acquire(2, 1)) == Two4
  {
    var a := State([B0Lent, B1Waits, B2Waits], Two3.locks);
    assert Announce(Two3, 2, 1) == a;
    assert Donee(a, 2, 1).None? && WalkLock(a, 2, 1, 1).None?;
    WalkIsHere(a, 2, 1, 0);
    assert WalkState(a, 2, 1, 0) == a;
    EmptyQueue(a.threads, 2);
  }

  lemma TwoReleased()
    ensures Enabled(Two4, Release(0, 0)) && Apply(Two4, Release(0, 0)) == Two5
  {
    assert WithoutLock(B0Lent.donations, 0) == [];
    assert SortWaiters(Two5.threads, [1]) == [1];
  }

  lemma TwoCovered()
    ensures WaitersCovered(Two4) && !WaitersCovered(Two5)
  {
    forall l: nat ensures LockCovered(Two4, l) {}
    assert Two5.locks[1].waiters[0] == 2;
    assert Priority(Two5, 2) == 15 && Priority(Two5, 0) == 10;
    assert !LockCovered(Two5, 1);
  }

  const High := Thread(31, 31, [], None)
  const One0 := State([High, B1], [Lock(None, 1, [])])
  const One1 := State([High, B1], [Lock(Some(0), 0, [])])
  const One2 := State([High, B1Waits], [Lock(Some(0), 0, [1])])
  const One3 := State([Thread(5, 5, [], None), B1Waits], [Lock(Some(0), 0, [1])])

  /** A holder lowers its base below a waiter that recorded nothing, being lower when it came. */
  lemma LoweringUncovers()
    ensures Initial(One0) && Enabled(One0, Acquire(0, 0)) && Apply(One0, Acquire(0, 0)) == One1
    ensures Enabled(One1, Acquire(1, 0)) && Apply(One1, Acquire(1, 0)) == One2
    ensures Enabled(One2, SetPriority(0, 5)) && Apply(One2, SetPriority(0, 5)) == One3
    ensures WaitersCovered(One2) && !WaitersCovered(One3)
  {
    assert WalkLock(One0, 0, 0, 1).None?;
    var a := State([High, B1Waits], One1.locks);
    assert Announce(One1, 1, 0) == a;
    assert Donee(a, 1, 0).None? && WalkLock(a, 1, 0, 1).None?;
    WalkIsHere(a, 1, 0, 0);
    assert WalkState(a, 1, 0, 0) == a;
    EmptyQueue(a.threads, 1);
    forall l: nat ensures LockCovered(One2, l) {}
    assert One3.locks[0].waiters[0] == 1;
    assert Priority(One3, 1) == 20 && Priority(One3, 0) == 5;
    assert !LockCovered(One3, 0);
  }
}
