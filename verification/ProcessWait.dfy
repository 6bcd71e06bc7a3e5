/**
 The handshake between parents and children: fork, exit, wait and the freeing of a dead process's
 thread block (pintos-kaist/userprog/process.c, pintos-kaist/threads/thread.c).

 Processes run concurrently, so the model is a transition system.  Each action is what one process
 does between two points where another may run: one semaphore operation, one read or one write of
 a block another process can reach.  Following a link to a block that was given back is a `Fault`, whether or not
 its page is in use again by then.
 */
module ProcessWait {
  import opened Wrappers

  /** Where a process stands. */
  datatype Pc =
    | Running
    | ForkStart                        // new child, about to read its fork_info
    | ForkCopying(parent: nat)         // has read it, is duplicating the parent's resources
    | ForkFailed                       // has signalled the parent, is about to exit with -1
    | InFork(child: nat)               // parent, down on its fork_sema
    | ForkResumed(child: nat)          // parent, past it
    | InWait(child: nat)               // parent, down on the child's wait_sema
    | WaitDowned(child: nat)           // past it
    | WaitRead(child: nat, code: int)  // has read the exit status
    | WaitUnlinked(child: nat, code: int)
    | Exiting                          // exit status set, releasing resources
    | Signalled                        // wait_sema up, down on its own free_sema
    | Dying                            // queued on destruction_req

  /** A thread block. `parent` is not stored by the kernel; it is the creator. */
  datatype Proc = Proc(pc: Pc, parent: Option<nat>, status: int, children: set<nat>,
                       forkSema: nat, waitSema: nat, freeSema: nat)

  /** What system calls returned so far. */
  datatype Obs =
    | Collected(parent: nat, child: nat, value: int)  // wait returned after reading the child
    | Refused(parent: nat, child: nat)                // wait returned -1 at once
    | Forked(parent: nat, child: nat, ok: bool)       // fork returned the tid, or TID_ERROR

  /** `procs` holds the thread blocks not yet freed and `infos` the parent recorded in each
      fork_info not yet freed, by the child's tid.  `made` records for each child whether its resources
      could be duplicated, `exits` the statuses passed to exit. */
  datatype State = State(procs: map<nat, Proc>, infos: map<nat, nat>, next: nat,
                         made: map<nat, bool>, exits: map<nat, int>, history: seq<Obs>)

  datatype Action =
    | Fork | ReadInfo | FinishCopy(ok: bool) | DownFork | ReturnFork
    | Wait(child: nat) | DownWait | ReadStatus | Unlink | UpFree
    | Exit(code: int) | UpWait | DownFree | Free

  datatype Outcome = Next(state: State) | Blocked | Fault

  const TID_ERROR: int := -1

  function Newborn(parent: Option<nat>, pc: Pc): Proc { Proc(pc, parent, 0, {}, 0, 0, 0) }

  function Boot(): State { State(map[0 := Newborn(None, Running)], map[], 1, map[], map[], []) }

  function Put(s: State, t: nat, p: Proc): State { s.(procs := s.procs[t := p]) }

  function Log(s: State, o: Obs): State { s.(history := s.history + [o]) }

  /** `get_my_child` walks the blocks of all the caller's children. */
  predicate CanWalk(s: State, p: Proc) { p.children <= s.procs.Keys }

  /** The block of the thread created last is still there. */
  predicate YoungestThere(s: State) { s.next >= 1 && s.next - 1 in s.procs }

  /** Creating a thread links it behind the youngest one on `all_list`, which no thread ever leaves, and behind
      the last child on the caller's list: both blocks are written. */
  predicate CanCreate(s: State, p: Proc) { YoungestThere(s) && CanWalk(s, p) }

  /** One action of process `t`; `Blocked` when it is not what `t` does next or it must sleep. */
  function Step(s: State, t: nat, a: Action): Outcome {
    if t !in s.procs then Blocked
    else
      var p := s.procs[t];
      match (p.pc, a)
      case (Running, Fork) =>
        var c := s.next;
        if !CanCreate(s, p) then Fault
        else Next(s.(procs := s.procs[t := p.(pc := InFork(c), children := p.children + {c})]
                                [c := Newborn(Some(t), ForkStart)],
                infos := s.infos[c := t], next := c + 1))
      case (ForkStart, ReadInfo) =>
        if t !in s.infos then Fault else Next(Put(s, t, p.(pc := ForkCopying(s.infos[t]))))
      case (ForkCopying(q), FinishCopy(ok)) =>
        if q !in s.procs then Fault
        else
          var up := Put(s, q, s.procs[q].(forkSema := s.procs[q].forkSema + 1));
          if t !in up.procs then Fault
          else Next(Put(up, t, up.procs[t].(pc := if ok then Running else ForkFailed)).(made := s.made[t := ok]))
      case (InFork(c), DownFork) =>
        if p.forkSema == 0 then Blocked
        else Next(Put(s, t, p.(pc := ForkResumed(c), forkSema := p.forkSema - 1)))
      case (ForkResumed(c), ReturnFork) =>
        if !CanWalk(s, p) || c !in p.children || c !in s.infos then Fault
        else
          var ok := s.procs[c].status != TID_ERROR;
          Next(Log(Put(s, t, p.(pc := Running)).(infos := s.infos - {c}), Forked(t, c, ok)))
      case (Running, Wait(c)) =>
        if !CanWalk(s, p) then Fault
        else if c in p.children then Next(Put(s, t, p.(pc := InWait(c))))
        else Next(Log(s, Refused(t, c)))
      case (InWait(c), DownWait) =>
        if c !in s.procs || c == t then Fault
        else if s.procs[c].waitSema == 0 then Blocked
        else
          var q := s.procs[c];
          Next(Put(Put(s, c, q.(waitSema := q.waitSema - 1)), t, p.(pc := WaitDowned(c))))
      case (WaitDowned(c), ReadStatus) =>
        if c !in s.procs then Fault
        else Next(Put(s, t, p.(pc := WaitRead(c, s.procs[c].status))))
      case (WaitRead(c, code), Unlink) =>
        if !CanWalk(s, p) || c !in p.children then Fault
        else Next(Put(s, t, p.(pc := WaitUnlinked(c, code), children := p.children - {c})))
      case (WaitUnlinked(c, code), UpFree) =>
        if c !in s.procs || c == t then Fault
        else
          var q := s.procs[c];
          Next(Log(Put(Put(s, c, q.(freeSema := q.freeSema + 1)), t, p.(pc := Running)),
                   Collected(t, c, Reported(code))))
      case (Running, Exit(code)) =>
        Next(Put(s, t, p.(pc := Exiting, status := code)).(exits := s.exits[t := code]))
      case (ForkFailed, Exit(code)) =>
        if code != TID_ERROR then Blocked
        else Next(Put(s, t, p.(pc := Exiting, status := code)).(exits := s.exits[t := code]))
      case (Exiting, UpWait) =>
        Next(Put(s, t, p.(pc := Signalled, waitSema := p.waitSema + 1)))
      case (Signalled, DownFree) =>
        if p.freeSema == 0 then Blocked
        else Next(Put(s, t, p.(pc := Dying, freeSema := p.freeSema - 1)))
      case (Dying, Free) =>
        Next(s.(procs := s.procs - {t}))
      case _ => Blocked
  }

  function Reported(code: int): int { if code < 0 then -1 else code }

  // ---------------------------------------------------------------- the invariant

  function Collections(h: seq<Obs>, c: nat): nat {
    if h == [] then 0
    else Collections(h[..|h| - 1], c) + if h[|h| - 1].Collected? && h[|h| - 1].child == c then 1 else 0
  }

  /** The parent of `c` is between its sema_down on the child and its sema_up. */
  predicate Busy(s: State, c: nat) {
    c in s.procs && s.procs[c].parent.Some? && s.procs[c].parent.value in s.procs &&
    var pc := s.procs[s.procs[c].parent.value].pc;
    (pc.WaitDowned? || pc.WaitRead? || pc.WaitUnlinked?) && pc.child == c
  }

  function Bit(b: bool): nat { if b then 1 else 0 }

  /** The tokens of one process: exactly one of them exists from its signal until it is collected. */
  predicate TokenOk(s: State, c: nat) {
    c in s.procs ==>
      var q := s.procs[c];
      (q.pc.Signalled? ==>
         q.waitSema + q.freeSema + Bit(Busy(s, c)) == 1 && Collections(s.history, c) == q.freeSema) &&
      (!q.pc.Signalled? ==> q.waitSema == 0 && q.freeSema == 0 && !Busy(s, c)) &&
      (q.pc.Dying? ==> Collections(s.history, c) == 1) &&
      (!q.pc.Signalled? && !q.pc.Dying? ==> Collections(s.history, c) == 0)
  }

  /** A child is linked from its creation until its parent unlinks it. */
  predicate LinkOk(s: State, t: nat, c: nat) {
    t in s.procs && c in s.procs[t].children ==>
      c in s.procs && s.procs[c].parent == Some(t) && c != t && s.procs[c].freeSema == 0 && !s.procs[c].pc.Dying?
  }

  predicate IsLinked(s: State, t: nat, c: nat) { t in s.procs && c in s.procs[t].children }

  /** What the place of a process says about the process it deals with. */
  predicate PcOk(s: State, t: nat) {
    t in s.procs ==>
      var p := s.procs[t];
      match p.pc
      case ForkStart => t in s.infos && Starting(s, t, s.infos[t])
      case ForkCopying(q) => Starting(s, t, q)
      case InFork(c) =>
        IsLinked(s, t, c) && c in s.infos && c in s.procs && p.forkSema <= 1 &&
        (p.forkSema == 0 ==>
           s.procs[c].pc == ForkCopying(t) || (s.procs[c].pc == ForkStart && s.infos[c] == t))
      case ForkResumed(c) => IsLinked(s, t, c) && c in s.infos && p.forkSema == 0
      case InWait(c) => IsLinked(s, t, c) && p.forkSema == 0
      case WaitDowned(c) => IsLinked(s, t, c) && p.forkSema == 0
      case WaitRead(c, code) => IsLinked(s, t, c) && c in s.exits && code == s.exits[c] && p.forkSema == 0
      case WaitUnlinked(c, code) =>
        c in s.procs && s.procs[c].parent == Some(t) && c != t && !IsLinked(s, t, c) &&
        c in s.exits && code == s.exits[c] && p.forkSema == 0
      case _ => p.forkSema == 0
  }

  predicate Starting(s: State, c: nat, q: nat) {
    c in s.procs && q in s.procs && q != c && s.procs[q].pc == InFork(c) && s.procs[q].forkSema == 0 &&
    s.procs[c].parent == Some(q) && s.procs[c].forkSema == 0
  }

  predicate ExitOk(s: State, t: nat) {
    t in s.procs ==>
      var p := s.procs[t];
      (p.pc.Exiting? || p.pc.Signalled? || p.pc.Dying? ==> t in s.exits && s.exits[t] == p.status) &&
      (!(p.pc.Exiting? || p.pc.Signalled? || p.pc.Dying?) ==> t !in s.exits && p.status == 0)
  }

  /** A fork_info is allocated exactly while its parent is inside fork. */
  predicate InfoOk(s: State, c: nat) {
    c in s.infos ==>
      s.infos[c] in s.procs && s.procs[s.infos[c]].pc in {InFork(c), ForkResumed(c)}
  }

  /** Whether a child was made is known from its signal on; one that was not can only exit with -1. */
  predicate MadeOk(s: State, c: nat) {
    c in s.procs ==>
      var q := s.procs[c];
      (q.pc.ForkStart? || q.pc.ForkCopying? ==> c !in s.made) &&
      (q.parent.Some? && !q.pc.ForkStart? && !q.pc.ForkCopying? ==> c in s.made) &&
      (q.pc.ForkFailed? ==> c in s.made && !s.made[c]) &&
      (c in s.made && !s.made[c] ==> q.pc.ForkFailed? || (c in s.exits && s.exits[c] == TID_ERROR))
  }

  /** A process that is still being made has no children; a child is younger than its parent, and is linked to
      it until it is collected. */
  predicate KinOk(s: State, c: nat) {
    c in s.procs ==>
      var q := s.procs[c];
      (q.pc.ForkStart? || q.pc.ForkCopying? || q.pc.ForkFailed? ==> q.children == {}) &&
      (q.parent.Some? ==>
         q.parent.value < c &&
         (q.parent.value in s.procs ==>
            var p := s.procs[q.parent.value];
            c in p.children || (p.pc.WaitUnlinked? && p.pc.child == c) || Collections(s.history, c) == 1))
  }

  predicate FreshOk(s: State, c: nat) {
    (c >= s.next ==> c !in s.procs && c !in s.exits && c !in s.made && Collections(s.history, c) == 0) &&
    (c < s.next && c !in s.procs ==> c in s.exits && Collections(s.history, c) == 1)
  }

  predicate CollectedOk(s: State, k: nat)
    requires k < |s.history|
  {
    s.history[k].Collected? ==>
      s.history[k].child in s.exits && s.history[k].value == Reported(s.exits[s.history[k].child])
  }

  predicate Basic(s: State, x: nat) {
    TokenOk(s, x) && PcOk(s, x) && ExitOk(s, x) && InfoOk(s, x) && FreshOk(s, x)
  }

  predicate Local(s: State, x: nat) {
    Basic(s, x) && MadeOk(s, x) && KinOk(s, x)
  }

  ghost predicate Inv(s: State) {
    (forall x: nat {:trigger Local(s, x)} :: Local(s, x)) &&
    (forall t: nat, c: nat {:trigger LinkOk(s, t, c)} :: LinkOk(s, t, c)) &&
    (forall k: nat {:trigger CollectedOk(s, k)} :: k < |s.history| ==> CollectedOk(s, k))
  }

  lemma BootOk()
    ensures Inv(Boot())
  {
  }

  // ---------------------------------------------------------------- every action keeps it

  /** `t` is about to create a process behind a thread block that was freed. */
  predicate ForksBadly(s: State, t: nat, a: Action) {
    t in s.procs && s.procs[t].pc.Running? && a.Fork? && !YoungestThere(s)
  }

  /** An action reaches freed memory if and only if it is such a fork, and every other keeps the invariant. */
  ghost predicate Safe(s: State, t: nat, a: Action) {
    (Step(s, t, a).Fault? <==> ForksBadly(s, t, a)) && (Step(s, t, a).Next? ==> Inv(Step(s, t, a).state))
  }

  lemma Logged(s: State, o: Obs, c: nat)
    ensures Collections(Log(s, o).history, c) ==
            Collections(s.history, c) + Bit(o.Collected? && o.child == c)
  {
    Appended(s.history, o, c);
  }

  lemma SameHistory(s: State, r: State)
    requires Inv(s) && r.history == s.history
    requires forall c :: c in s.exits ==> c in r.exits
    requires forall c :: c in s.exits && Collections(s.history, c) > 0 ==> r.exits[c] == s.exits[c]
    ensures forall k: nat :: k < |r.history| ==> CollectedOk(r, k)
  {
    forall k: nat | k < |r.history| ensures CollectedOk(r, k) {
      assert CollectedOk(s, k);
      if s.history[k].Collected? { CountsOne(s.history, k); }
    }
  }

  lemma MoreHistory(s: State, r: State, o: Obs)
    requires Inv(s) && r.history == s.history + [o] && r.exits == s.exits
    requires o.Collected? ==> o.child in s.exits && o.value == Reported(s.exits[o.child])
    ensures forall k: nat :: k < |r.history| ==> CollectedOk(r, k)
  {
    forall k: nat | k < |r.history| ensures CollectedOk(r, k) {
      if k < |s.history| { assert CollectedOk(s, k); }
    }
  }

  lemma {:induction false} CountsOne(h: seq<Obs>, k: nat)
    requires k < |h| && h[k].Collected?
    ensures Collections(h, h[k].child) > 0
    decreases |h|
  {
    if k < |h| - 1 { CountsOne(h[..|h| - 1], k); }
  }

  /** What an action can see of process `x`: its own facts and those of the processes it names. */
  ghost predicate Around(s: State, x: nat) {
    Local(s, x) &&
    (x in s.procs && s.procs[x].parent.Some? ==> Local(s, s.procs[x].parent.value)) &&
    (x in s.infos ==> Local(s, s.infos[x]))
  }

  lemma Look(s: State, x: nat)
    requires Inv(s)
    ensures Around(s, x)
  {
    assert Local(s, x);
    if x in s.procs && s.procs[x].parent.Some? { assert Local(s, s.procs[x].parent.value); }
    if x in s.infos { assert Local(s, s.infos[x]); }
  }

  lemma WalkOk(s: State, t: nat)
    requires Inv(s) && t in s.procs
    ensures CanWalk(s, s.procs[t])
  {
    forall c: nat | c in s.procs[t].children ensures c in s.procs { assert LinkOk(s, t, c); }
  }

  lemma ForkBasic(s: State, t: nat, c: nat, r: State, x: nat)
    requires t in s.procs && s.procs[t].pc.Running? && c == s.next
    requires Around(s, x) && Local(s, t) && Local(s, c) && LinkOk(s, t, x)
    requires r == s.(procs := s.procs[t := s.procs[t].(pc := InFork(c), children := s.procs[t].children + {c})]
                                     [c := Newborn(Some(t), ForkStart)],
                     infos := s.infos[c := t], next := c + 1)
    ensures Basic(r, x)
  {
  }

  lemma ForkKin(s: State, t: nat, c: nat, r: State, x: nat)
    requires t in s.procs && s.procs[t].pc.Running? && c == s.next
    requires Around(s, x) && Local(s, t) && Local(s, c) && LinkOk(s, t, x)
    requires r == s.(procs := s.procs[t := s.procs[t].(pc := InFork(c), children := s.procs[t].children + {c})]
                                     [c := Newborn(Some(t), ForkStart)],
                     infos := s.infos[c := t], next := c + 1)
    ensures MadeOk(r, x) && KinOk(r, x)
  {
  }

  lemma ForkLocal(s: State, t: nat, c: nat, r: State, x: nat)
    requires t in s.procs && s.procs[t].pc.Running? && c == s.next
    requires Around(s, x) && Local(s, t) && Local(s, c) && LinkOk(s, t, x)
    requires r == s.(procs := s.procs[t := s.procs[t].(pc := InFork(c), children := s.procs[t].children + {c})]
                                     [c := Newborn(Some(t), ForkStart)],
                     infos := s.infos[c := t], next := c + 1)
    ensures Local(r, x)
  {
    ForkBasic(s, t, c, r, x);
    ForkKin(s, t, c, r, x);
  }

  lemma ForkSafe(s: State, t: nat)
    requires Inv(s) && t in s.procs && s.procs[t].pc.Running?
    ensures Safe(s, t, Fork)
  {
    WalkOk(s, t);
    if Step(s, t, Fork).Next? {
      var r := Step(s, t, Fork).state;
      var c := s.next;
      assert Local(s, t) && Local(s, c);
      forall x: nat ensures Local(r, x) {
        Look(s, x);
        assert LinkOk(s, t, x);
        ForkLocal(s, t, c, r, x);
      }
      forall p: nat, x: nat ensures LinkOk(r, p, x) { assert LinkOk(s, p, x) && Local(s, x); }
      SameHistory(s, r);
    }
  }

  lemma ReadInfoLocal(s: State, t: nat, r: State, x: nat)
    requires t in s.procs && s.procs[t].pc.ForkStart? && t in s.infos
    requires Around(s, x) && Local(s, t) && LinkOk(s, t, x)
    requires r == Put(s, t, s.procs[t].(pc := ForkCopying(s.infos[t])))
    ensures Local(r, x)
  {
  }

  lemma ReadInfoSafe(s: State, t: nat)
    requires Inv(s) && t in s.procs && s.procs[t].pc.ForkStart?
    ensures Safe(s, t, ReadInfo)
  {
    Look(s, t);
    if Step(s, t, ReadInfo).Next? {
      var r := Step(s, t, ReadInfo).state;
      forall x: nat ensures Local(r, x) {
        Look(s, x);
        assert LinkOk(s, t, x);
        ReadInfoLocal(s, t, r, x);
      }
      forall p: nat, x: nat ensures LinkOk(r, p, x) { assert LinkOk(s, p, x) && Local(s, x); }
      SameHistory(s, r);
    }
  }

  lemma DownForkLocal(s: State, t: nat, c: nat, r: State, x: nat)
    requires t in s.procs && s.procs[t].pc == InFork(c) && s.procs[t].forkSema > 0
    requires Around(s, x) && Local(s, t) && LinkOk(s, t, x) && Local(s, c) && LinkOk(s, t, c)
    requires r == Put(s, t, s.procs[t].(pc := ForkResumed(c), forkSema := s.procs[t].forkSema - 1))
    ensures Local(r, x)
  {
  }

  lemma DownForkSafe(s: State, t: nat, c: nat)
    requires Inv(s) && t in s.procs && s.procs[t].pc == InFork(c)
    ensures Safe(s, t, DownFork)
  {
    Look(s, t);
    Look(s, c);
    assert LinkOk(s, t, c);
    if Step(s, t, DownFork).Next? {
      var r := Step(s, t, DownFork).state;
      forall x: nat ensures Local(r, x) {
        Look(s, x);
        assert LinkOk(s, t, x);
        DownForkLocal(s, t, c, r, x);
      }
      forall p: nat, x: nat ensures LinkOk(r, p, x) { assert LinkOk(s, p, x) && Local(s, x); }
      SameHistory(s, r);
    }
  }

  lemma UpWaitLocal(s: State, t: nat, r: State, x: nat)
    requires t in s.procs && s.procs[t].pc.Exiting?
    requires Around(s, x) && Local(s, t) && LinkOk(s, t, x)
    requires r == Put(s, t, s.procs[t].(pc := Signalled, waitSema := s.procs[t].waitSema + 1))
    ensures Local(r, x)
  {
  }

  lemma UpWaitSafe(s: State, t: nat)
    requires Inv(s) && t in s.procs && s.procs[t].pc.Exiting?
    ensures Safe(s, t, UpWait)
  {
    Look(s, t);
    if Step(s, t, UpWait).Next? {
      var r := Step(s, t, UpWait).state;
      forall x: nat ensures Local(r, x) {
        Look(s, x);
        assert LinkOk(s, t, x);
        UpWaitLocal(s, t, r, x);
      }
      forall p: nat, x: nat ensures LinkOk(r, p, x) { assert LinkOk(s, p, x) && Local(s, x); }
      SameHistory(s, r);
    }
  }

  lemma DownFreeLocal(s: State, t: nat, r: State, x: nat)
    requires t in s.procs && s.procs[t].pc.Signalled? && s.procs[t].freeSema > 0
    requires Around(s, x) && Local(s, t) && LinkOk(s, t, x)
    requires r == Put(s, t, s.procs[t].(pc := Dying, freeSema := s.procs[t].freeSema - 1))
    ensures Local(r, x)
  {
  }

  lemma DownFreeSafe(s: State, t: nat)
    requires Inv(s) && t in s.procs && s.procs[t].pc.Signalled?
    ensures Safe(s, t, DownFree)
  {
    Look(s, t);
    if Step(s, t, DownFree).Next? {
      var r := Step(s, t, DownFree).state;
      forall x: nat ensures Local(r, x) {
        Look(s, x);
        assert LinkOk(s, t, x);
        DownFreeLocal(s, t, r, x);
      }
      forall p: nat, x: nat ensures LinkOk(r, p, x) { assert LinkOk(s, p, x) && Local(s, x); }
      SameHistory(s, r);
    }
  }

  lemma FreeLocal(s: State, t: nat, r: State, x: nat)
    requires t in s.procs && s.procs[t].pc.Dying?
    requires Around(s, x) && Local(s, t) && LinkOk(s, x, t)
    requires r == s.(procs := s.procs - {t})
    ensures Local(r, x)
  {
  }

  lemma FreeSafe(s: State, t: nat)
    requires Inv(s) && t in s.procs && s.procs[t].pc.Dying?
    ensures Safe(s, t, Free)
  {
    Look(s, t);
    if Step(s, t, Free).Next? {
      var r := Step(s, t, Free).state;
      forall x: nat ensures Local(r, x) {
        Look(s, x);
        assert LinkOk(s, x, t);
        FreeLocal(s, t, r, x);
      }
      forall p: nat, x: nat ensures LinkOk(r, p, x) { assert LinkOk(s, p, x) && Local(s, x); }
      SameHistory(s, r);
    }
  }

  lemma DownWaitLocal(s: State, t: nat, c: nat, r: State, x: nat)
    requires t in s.procs && s.procs[t].pc == InWait(c) && c in s.procs && s.procs[c].waitSema > 0
    requires Around(s, x) && Local(s, t) && LinkOk(s, t, x) && Local(s, c) && LinkOk(s, t, c)
    requires r == Put(Put(s, c, s.procs[c].(waitSema := s.procs[c].waitSema - 1)), t, s.procs[t].(pc := WaitDowned(c)))
    ensures Local(r, x)
  {
  }

  lemma DownWaitSafe(s: State, t: nat, c: nat)
    requires Inv(s) && t in s.procs && s.procs[t].pc == InWait(c)
    ensures Safe(s, t, DownWait)
  {
    Look(s, t);
    Look(s, c);
    assert LinkOk(s, t, c);
    if Step(s, t, DownWait).Next? {
      var r := Step(s, t, DownWait).state;
      forall x: nat ensures Local(r, x) {
        Look(s, x);
        assert LinkOk(s, t, x);
        DownWaitLocal(s, t, c, r, x);
      }
      forall p: nat, x: nat ensures LinkOk(r, p, x) { assert LinkOk(s, p, x) && Local(s, x); }
      SameHistory(s, r);
    }
  }

  lemma ReadStatusLocal(s: State, t: nat, c: nat, r: State, x: nat)
    requires t in s.procs && s.procs[t].pc == WaitDowned(c) && c in s.procs
    requires Around(s, x) && Local(s, t) && LinkOk(s, t, x) && Local(s, c) && LinkOk(s, t, c)
    requires r == Put(s, t, s.procs[t].(pc := WaitRead(c, s.procs[c].status)))
    ensures Local(r, x)
  {
  }

  lemma ReadStatusSafe(s: State, t: nat, c: nat)
    requires Inv(s) && t in s.procs && s.procs[t].pc == WaitDowned(c)
    ensures Safe(s, t, ReadStatus)
  {
    Look(s, t);
    Look(s, c);
    assert LinkOk(s, t, c);
    if Step(s, t, ReadStatus).Next? {
      var r := Step(s, t, ReadStatus).state;
      forall x: nat ensures Local(r, x) {
        Look(s, x);
        assert LinkOk(s, t, x);
        ReadStatusLocal(s, t, c, r, x);
      }
      forall p: nat, x: nat ensures LinkOk(r, p, x) { assert LinkOk(s, p, x) && Local(s, x); }
      SameHistory(s, r);
    }
  }

  lemma FinishCopyBasic(s: State, t: nat, q: nat, ok: bool, r: State, x: nat)
    requires t in s.procs && s.procs[t].pc == ForkCopying(q) && q in s.procs && q != t
    requires Around(s, x) && Local(s, t) && LinkOk(s, t, x) && Local(s, q) && LinkOk(s, t, q)
    requires r == Put(Put(s, q, s.procs[q].(forkSema := s.procs[q].forkSema + 1)), t, s.procs[t].(pc := if ok then Running else ForkFailed)).(made := s.made[t := ok])
    ensures Basic(r, x)
  {
  }

  lemma FinishCopyKin(s: State, t: nat, q: nat, ok: bool, r: State, x: nat)
    requires t in s.procs && s.procs[t].pc == ForkCopying(q) && q in s.procs && q != t
    requires Around(s, x) && Local(s, t) && LinkOk(s, t, x) && Local(s, q) && LinkOk(s, t, q)
    requires r == Put(Put(s, q, s.procs[q].(forkSema := s.procs[q].forkSema + 1)), t, s.procs[t].(pc := if ok then Running else ForkFailed)).(made := s.made[t := ok])
    ensures MadeOk(r, x) && KinOk(r, x)
  {
  }

  lemma FinishCopyLocal(s: State, t: nat, q: nat, ok: bool, r: State, x: nat)
    requires t in s.procs && s.procs[t].pc == ForkCopying(q) && q in s.procs && q != t
    requires Around(s, x) && Local(s, t) && LinkOk(s, t, x) && Local(s, q) && LinkOk(s, t, q)
    requires r == Put(Put(s, q, s.procs[q].(forkSema := s.procs[q].forkSema + 1)), t, s.procs[t].(pc := if ok then Running else ForkFailed)).(made := s.made[t := ok])
    ensures Local(r, x)
  {
    FinishCopyBasic(s, t, q, ok, r, x);
    FinishCopyKin(s, t, q, ok, r, x);
  }

  lemma FinishCopySafe(s: State, t: nat, q: nat, ok: bool)
    requires Inv(s) && t in s.procs && s.procs[t].pc == ForkCopying(q)
    ensures Safe(s, t, FinishCopy(ok))
  {
    Look(s, t);
    Look(s, q);
    assert LinkOk(s, t, q);
    if Step(s, t, FinishCopy(ok)).Next? {
      var r := Step(s, t, FinishCopy(ok)).state;
      forall x: nat ensures Local(r, x) {
        Look(s, x);
        assert LinkOk(s, t, x);
        FinishCopyLocal(s, t, q, ok, r, x);
      }
      forall p: nat, x: nat ensures LinkOk(r, p, x) { assert LinkOk(s, p, x) && Local(s, x); }
      SameHistory(s, r);
    }
  }

  lemma UnlinkLocal(s: State, t: nat, c: nat, code: int, r: State, x: nat)
    requires t in s.procs && s.procs[t].pc == WaitRead(c, code) && c in s.procs
    requires Around(s, x) && Local(s, t) && LinkOk(s, t, x) && Local(s, c) && LinkOk(s, t, c)
    requires r == Put(s, t, s.procs[t].(pc := WaitUnlinked(c, code), children := s.procs[t].children - {c}))
    ensures Local(r, x)
  {
  }

  lemma UnlinkSafe(s: State, t: nat, c: nat, code: int)
    requires Inv(s) && t in s.procs && s.procs[t].pc == WaitRead(c, code)
    ensures Safe(s, t, Unlink)
  {
    Look(s, t);
    Look(s, c);
    assert LinkOk(s, t, c);
    WalkOk(s, t);
    if Step(s, t, Unlink).Next? {
      var r := Step(s, t, Unlink).state;
      forall x: nat ensures Local(r, x) {
        Look(s, x);
        assert LinkOk(s, t, x);
        UnlinkLocal(s, t, c, code, r, x);
      }
      forall p: nat, x: nat ensures LinkOk(r, p, x) { assert LinkOk(s, p, x) && Local(s, x); }
      SameHistory(s, r);
    }
  }

  lemma ReturnForkBasic(s: State, t: nat, c: nat, r: State, x: nat)
    requires t in s.procs && s.procs[t].pc == ForkResumed(c) && c in s.procs
    requires Around(s, x) && Local(s, t) && LinkOk(s, t, x) && LinkOk(s, x, c) && Local(s, c) && LinkOk(s, t, c)
    requires r == Log(Put(s, t, s.procs[t].(pc := Running)).(infos := s.infos - {c}), Forked(t, c, s.procs[c].status != TID_ERROR))
    ensures Basic(r, x)
  {
    ReturnForkPlace(s, t, c, r, x);
    Logged(s, Forked(t, c, s.procs[c].status != TID_ERROR), x);
  }

  lemma ReturnForkPlace(s: State, t: nat, c: nat, r: State, x: nat)
    requires t in s.procs && s.procs[t].pc == ForkResumed(c) && c in s.procs
    requires Around(s, x) && Local(s, t) && LinkOk(s, t, x) && LinkOk(s, x, c) && Local(s, c) && LinkOk(s, t, c)
    requires r == Log(Put(s, t, s.procs[t].(pc := Running)).(infos := s.infos - {c}), Forked(t, c, s.procs[c].status != TID_ERROR))
    ensures PcOk(r, x)
  {
  }

  lemma ReturnForkKin(s: State, t: nat, c: nat, r: State, x: nat)
    requires t in s.procs && s.procs[t].pc == ForkResumed(c) && c in s.procs
    requires Around(s, x) && Local(s, t) && LinkOk(s, t, x) && LinkOk(s, x, c) && Local(s, c) && LinkOk(s, t, c)
    requires r == Log(Put(s, t, s.procs[t].(pc := Running)).(infos := s.infos - {c}), Forked(t, c, s.procs[c].status != TID_ERROR))
    ensures MadeOk(r, x) && KinOk(r, x)
  {
    Logged(s, Forked(t, c, s.procs[c].status != TID_ERROR), x);
  }

  lemma ReturnForkLocal(s: State, t: nat, c: nat, r: State, x: nat)
    requires t in s.procs && s.procs[t].pc == ForkResumed(c) && c in s.procs
    requires Around(s, x) && Local(s, t) && LinkOk(s, t, x) && LinkOk(s, x, c) && Local(s, c) && LinkOk(s, t, c)
    requires r == Log(Put(s, t, s.procs[t].(pc := Running)).(infos := s.infos - {c}), Forked(t, c, s.procs[c].status != TID_ERROR))
    ensures Local(r, x)
  {
    ReturnForkBasic(s, t, c, r, x);
    ReturnForkKin(s, t, c, r, x);
  }

  lemma ReturnForkSafe(s: State, t: nat, c: nat)
    requires Inv(s) && t in s.procs && s.procs[t].pc == ForkResumed(c)
    ensures Safe(s, t, ReturnFork)
  {
    Look(s, t);
    Look(s, c);
    assert LinkOk(s, t, c);
    WalkOk(s, t);
    if Step(s, t, ReturnFork).Next? {
      var r := Step(s, t, ReturnFork).state;
      forall x: nat ensures Local(r, x) {
        Look(s, x);
        assert LinkOk(s, t, x) && LinkOk(s, x, c);
        ReturnForkLocal(s, t, c, r, x);
      }
      forall p: nat, x: nat ensures LinkOk(r, p, x) { assert LinkOk(s, p, x) && Local(s, x); }
      MoreHistory(s, r, Forked(t, c, s.procs[c].status != TID_ERROR));
    }
  }

  lemma WaitBasic(s: State, t: nat, c: nat, r: State, x: nat)
    requires t in s.procs && s.procs[t].pc.Running?
    requires Around(s, x) && Local(s, t) && LinkOk(s, t, x)
    requires r == if c in s.procs[t].children then Put(s, t, s.procs[t].(pc := InWait(c))) else Log(s, Refused(t, c))
    ensures Basic(r, x)
  {
    WaitPlace(s, t, c, r, x);
    Logged(s, Refused(t, c), x);
  }

  lemma WaitPlace(s: State, t: nat, c: nat, r: State, x: nat)
    requires t in s.procs && s.procs[t].pc.Running?
    requires Around(s, x) && Local(s, t) && LinkOk(s, t, x)
    requires r == if c in s.procs[t].children then Put(s, t, s.procs[t].(pc := InWait(c))) else Log(s, Refused(t, c))
    ensures PcOk(r, x)
  {
  }

  lemma WaitKin(s: State, t: nat, c: nat, r: State, x: nat)
    requires t in s.procs && s.procs[t].pc.Running?
    requires Around(s, x) && Local(s, t) && LinkOk(s, t, x)
    requires r == if c in s.procs[t].children then Put(s, t, s.procs[t].(pc := InWait(c))) else Log(s, Refused(t, c))
    ensures MadeOk(r, x) && KinOk(r, x)
  {
    Logged(s, Refused(t, c), x);
  }

  lemma WaitLocal(s: State, t: nat, c: nat, r: State, x: nat)
    requires t in s.procs && s.procs[t].pc.Running?
    requires Around(s, x) && Local(s, t) && LinkOk(s, t, x)
    requires r == if c in s.procs[t].children then Put(s, t, s.procs[t].(pc := InWait(c))) else Log(s, Refused(t, c))
    ensures Local(r, x)
  {
    WaitBasic(s, t, c, r, x);
    WaitKin(s, t, c, r, x);
  }

  lemma WaitSafe(s: State, t: nat, c: nat)
    requires Inv(s) && t in s.procs && s.procs[t].pc.Running?
    ensures Safe(s, t, Wait(c))
  {
    Look(s, t);
    WalkOk(s, t);
    if Step(s, t, Wait(c)).Next? {
      var r := Step(s, t, Wait(c)).state;
      forall x: nat ensures Local(r, x) {
        Look(s, x);
        assert LinkOk(s, t, x);
        WaitLocal(s, t, c, r, x);
      }
      forall p: nat, x: nat ensures LinkOk(r, p, x) { assert LinkOk(s, p, x) && Local(s, x); }
      if c in s.procs[t].children { SameHistory(s, r); } else { MoreHistory(s, r, Refused(t, c)); }
    }
  }

  lemma UpFreeBasic(s: State, t: nat, c: nat, code: int, r: State, x: nat)
    requires t in s.procs && s.procs[t].pc == WaitUnlinked(c, code) && c in s.procs
    requires Around(s, x) && Local(s, t) && LinkOk(s, t, x) && Local(s, c) && LinkOk(s, t, c)
    requires r == Log(Put(Put(s, c, s.procs[c].(freeSema := s.procs[c].freeSema + 1)), t, s.procs[t].(pc := Running)), Collected(t, c, Reported(code)))
    ensures Basic(r, x)
  {
    Logged(s, Collected(t, c, Reported(code)), x);
    UpFreePlace(s, t, c, code, r, x);
  }

  lemma UpFreePlace(s: State, t: nat, c: nat, code: int, r: State, x: nat)
    requires t in s.procs && s.procs[t].pc == WaitUnlinked(c, code) && c in s.procs
    requires Around(s, x) && Local(s, t) && LinkOk(s, t, x) && Local(s, c) && LinkOk(s, t, c)
    requires r == Log(Put(Put(s, c, s.procs[c].(freeSema := s.procs[c].freeSema + 1)), t, s.procs[t].(pc := Running)), Collected(t, c, Reported(code)))
    ensures PcOk(r, x)
  {
  }

  lemma UpFreeKin(s: State, t: nat, c: nat, code: int, r: State, x: nat)
    requires t in s.procs && s.procs[t].pc == WaitUnlinked(c, code) && c in s.procs
    requires Around(s, x) && Local(s, t) && LinkOk(s, t, x) && Local(s, c) && LinkOk(s, t, c)
    requires r == Log(Put(Put(s, c, s.procs[c].(freeSema := s.procs[c].freeSema + 1)), t, s.procs[t].(pc := Running)), Collected(t, c, Reported(code)))
    ensures MadeOk(r, x) && KinOk(r, x)
  {
    Logged(s, Collected(t, c, Reported(code)), x);
  }

  lemma UpFreeLocal(s: State, t: nat, c: nat, code: int, r: State, x: nat)
    requires t in s.procs && s.procs[t].pc == WaitUnlinked(c, code) && c in s.procs
    requires Around(s, x) && Local(s, t) && LinkOk(s, t, x) && Local(s, c) && LinkOk(s, t, c)
    requires r == Log(Put(Put(s, c, s.procs[c].(freeSema := s.procs[c].freeSema + 1)), t, s.procs[t].(pc := Running)), Collected(t, c, Reported(code)))
    ensures Local(r, x)
  {
    UpFreeBasic(s, t, c, code, r, x);
    UpFreeKin(s, t, c, code, r, x);
  }

  lemma UpFreeSafe(s: State, t: nat, c: nat, code: int)
    requires Inv(s) && t in s.procs && s.procs[t].pc == WaitUnlinked(c, code)
    ensures Safe(s, t, UpFree)
  {
    Look(s, t);
    Look(s, c);
    assert LinkOk(s, t, c);
    if Step(s, t, UpFree).Next? {
      var r := Step(s, t, UpFree).state;
      forall x: nat ensures Local(r, x) {
        Look(s, x);
        assert LinkOk(s, t, x);
        UpFreeLocal(s, t, c, code, r, x);
      }
      forall p: nat, x: nat ensures LinkOk(r, p, x) { assert LinkOk(s, p, x) && Local(s, x); }
      MoreHistory(s, r, Collected(t, c, Reported(code)));
    }
  }

  lemma ExitBasic(s: State, t: nat, code: int, r: State, x: nat)
    requires t in s.procs && (s.procs[t].pc.Running? || (s.procs[t].pc.ForkFailed? && code == TID_ERROR))
    requires Around(s, x) && Local(s, t) && LinkOk(s, t, x)
    requires r == Put(s, t, s.procs[t].(pc := Exiting, status := code)).(exits := s.exits[t := code])
    ensures Basic(r, x)
  {
  }

  lemma ExitKin(s: State, t: nat, code: int, r: State, x: nat)
    requires t in s.procs && (s.procs[t].pc.Running? || (s.procs[t].pc.ForkFailed? && code == TID_ERROR))
    requires Around(s, x) && Local(s, t) && LinkOk(s, t, x)
    requires r == Put(s, t, s.procs[t].(pc := Exiting, status := code)).(exits := s.exits[t := code])
    ensures MadeOk(r, x) && KinOk(r, x)
  {
  }

  lemma ExitLocal(s: State, t: nat, code: int, r: State, x: nat)
    requires t in s.procs && (s.procs[t].pc.Running? || (s.procs[t].pc.ForkFailed? && code == TID_ERROR))
    requires Around(s, x) && Local(s, t) && LinkOk(s, t, x)
    requires r == Put(s, t, s.procs[t].(pc := Exiting, status := code)).(exits := s.exits[t := code])
    ensures Local(r, x)
  {
    ExitBasic(s, t, code, r, x);
    ExitKin(s, t, code, r, x);
  }

  lemma ExitSafe(s: State, t: nat, code: int)
    requires Inv(s) && t in s.procs && (s.procs[t].pc.Running? || s.procs[t].pc.ForkFailed?)
    ensures Safe(s, t, Exit(code))
  {
    Look(s, t);
    if Step(s, t, Exit(code)).Next? {
      var r := Step(s, t, Exit(code)).state;
      forall x: nat ensures Local(r, x) {
        Look(s, x);
        assert LinkOk(s, t, x);
        ExitLocal(s, t, code, r, x);
      }
      forall p: nat, x: nat ensures LinkOk(r, p, x) { assert LinkOk(s, p, x) && Local(s, x); }
      SameHistory(s, r);
    }
  }

  lemma RunningSafe(s: State, t: nat, a: Action)
    requires Inv(s) && t in s.procs && s.procs[t].pc.Running?
    ensures Safe(s, t, a)
  {
    if a.Fork? { ForkSafe(s, t); }
    else if a.Wait? { WaitSafe(s, t, a.child); }
    else if a.Exit? { ExitSafe(s, t, a.code); }
  }

  /** A process in the middle of a fork, on either side of it. */
  predicate Forking(pc: Pc) { pc.ForkStart? || pc.ForkCopying? || pc.ForkFailed? || pc.InFork? || pc.ForkResumed? }

  predicate Waiting(pc: Pc) { pc.InWait? || pc.WaitDowned? || pc.WaitRead? || pc.WaitUnlinked? }

  lemma ForkingSafe(s: State, t: nat, a: Action)
    requires Inv(s) && t in s.procs && Forking(s.procs[t].pc)
    ensures Safe(s, t, a)
  {
    match s.procs[t].pc {
      case ForkStart => if a.ReadInfo? { ReadInfoSafe(s, t); }
      case ForkCopying(q) => if a.FinishCopy? { FinishCopySafe(s, t, q, a.ok); }
      case ForkFailed => if a.Exit? { ExitSafe(s, t, a.code); }
      case InFork(c) => if a.DownFork? { DownForkSafe(s, t, c); }
      case ForkResumed(c) => if a.ReturnFork? { ReturnForkSafe(s, t, c); }
    }
  }

  lemma WaitingSafe(s: State, t: nat, a: Action)
    requires Inv(s) && t in s.procs && Waiting(s.procs[t].pc)
    ensures Safe(s, t, a)
  {
    match s.procs[t].pc {
      case InWait(c) => if a.DownWait? { DownWaitSafe(s, t, c); }
      case WaitDowned(c) => if a.ReadStatus? { ReadStatusSafe(s, t, c); }
      case WaitRead(c, code) => if a.Unlink? { UnlinkSafe(s, t, c, code); }
      case WaitUnlinked(c, code) => if a.UpFree? { UpFreeSafe(s, t, c, code); }
    }
  }

  /** Every action of every process, in every state the invariant allows. */
  lemma StepSafe(s: State, t: nat, a: Action)
    requires Inv(s)
    ensures Safe(s, t, a)
  {
    if t in s.procs {
      var pc := s.procs[t].pc;
      if Forking(pc) {
        ForkingSafe(s, t, a);
      } else if Waiting(pc) {
        WaitingSafe(s, t, a);
      } else {
        match pc {
          case Running => RunningSafe(s, t, a);
          case Exiting => if a.UpWait? { UpWaitSafe(s, t); }
          case Signalled => if a.DownFree? { DownFreeSafe(s, t); }
          case Dying => if a.Free? { FreeSafe(s, t); }
        }
      }
    }
  }

  // ---------------------------------------------------------------- whole runs

  datatype Move = Move(tid: nat, action: Action)

  /** Any interleaving: the moves are taken in order, and those that cannot be taken are skipped. */
  function Run(s: State, ms: seq<Move>): Outcome
    decreases |ms|
  {
    if ms == [] then Next(s)
    else
      match Step(s, ms[0].tid, ms[0].action)
      case Next(r) => Run(r, ms[1..])
      case Blocked => Run(s, ms[1..])
      case Fault => Fault
  }

  /** No move of the run forks behind a freed block: each is looked at in the state it is made in. */
  predicate Careful(s: State, ms: seq<Move>)
    decreases |ms|
  {
    ms == [] ||
    (!ForksBadly(s, ms[0].tid, ms[0].action) &&
     match Step(s, ms[0].tid, ms[0].action)
     case Next(r) => Careful(r, ms[1..])
     case Blocked => Careful(s, ms[1..])
     case Fault => false)
  }

  /** fork writes into a freed thread block if and only if the youngest thread's block is gone. */
  lemma ForkFaultsIff(s: State, t: nat)
    requires Inv(s) && t in s.procs && s.procs[t].pc.Running?
    ensures Step(s, t, Fork).Fault? <==> s.next - 1 !in s.procs
  {
    ForkSafe(s, t);
    assert Local(s, t);
  }

  /** In every interleaving of parents and children freed memory is reached if and only if some process forks
      after the youngest thread block has been freed.  Nothing else ever touches a freed thread block or
      fork_info, or frees one twice. */
  lemma {:induction false} RunsSafe(s: State, ms: seq<Move>)
    requires Inv(s)
    ensures Run(s, ms).Next? <==> Careful(s, ms)
    ensures Run(s, ms).Next? ==> Inv(Run(s, ms).state)
    decreases |ms|
  {
    if ms != [] {
      StepSafe(s, ms[0].tid, ms[0].action);
      match Step(s, ms[0].tid, ms[0].action) {
        case Next(r) => RunsSafe(r, ms[1..]);
        case Blocked => RunsSafe(s, ms[1..]);
        case Fault =>
      }
    }
  }

  /** A status passed to exit is never overwritten. */
  lemma {:induction false} ExitsFinal(s: State, ms: seq<Move>, c: nat)
    requires Inv(s) && c in s.exits && Careful(s, ms)
    ensures Run(s, ms).Next? && c in Run(s, ms).state.exits && Run(s, ms).state.exits[c] == s.exits[c]
    decreases |ms|
  {
    if ms != [] {
      var t := ms[0].tid;
      StepSafe(s, t, ms[0].action);
      assert Local(s, t);
      match Step(s, t, ms[0].action) {
        case Next(r) => ExitsFinal(r, ms[1..], c);
        case Blocked => ExitsFinal(s, ms[1..], c);
      }
    }
  }

  lemma AtMostOnce(s: State, c: nat)
    requires Inv(s)
    ensures Collections(s.history, c) <= 1
  {
    assert Local(s, c);
  }

  lemma {:induction false} CountsTwo(h: seq<Obs>, i: nat, j: nat)
    requires i < j < |h| && h[i].Collected? && h[j].Collected? && h[i].child == h[j].child
    ensures Collections(h, h[i].child) >= 2
    decreases |h|
  {
    if j == |h| - 1 {
      CountsOne(h[..j], i);
    } else {
      CountsTwo(h[..|h| - 1], i, j);
    }
  }

  /** In every run: wait hands out a child's status at most once, and what it hands out is the status
      that child passed to exit, with every negative one shown as -1. */
  lemma StatusCollectedOnce(ms: seq<Move>)
    requires Careful(Boot(), ms)
    ensures Run(Boot(), ms).Next?
    ensures var h := Run(Boot(), ms).state.history;
      forall i, j :: 0 <= i < j < |h| && h[i].Collected? && h[j].Collected? ==> h[i].child != h[j].child
    ensures var r := Run(Boot(), ms).state;
      forall i :: 0 <= i < |r.history| && r.history[i].Collected? ==>
        var c, v := r.history[i].child, r.history[i].value;
        c in r.exits && (r.exits[c] >= 0 ==> v == r.exits[c]) && (r.exits[c] < 0 ==> v == -1)
  {
    BootOk();
    RunsSafe(Boot(), ms);
    var r := Run(Boot(), ms).state;
    var h := r.history;
    forall i, j | 0 <= i < j < |h| && h[i].Collected? && h[j].Collected? && h[i].child == h[j].child ensures false {
      CountsTwo(h, i, j);
      AtMostOnce(r, h[i].child);
    }
    forall i | 0 <= i < |h| && h[i].Collected?
      ensures h[i].child in r.exits
      ensures r.exits[h[i].child] >= 0 ==> h[i].value == r.exits[h[i].child]
      ensures r.exits[h[i].child] < 0 ==> h[i].value == -1
    {
      assert CollectedOk(r, i);
    }
  }

  /** Once collected, a child is refused at once to everyone, for ever. */
  lemma WaitAgainRefused(s: State, ms: seq<Move>, k: nat, t: nat)
    requires Inv(s) && k < |s.history| && s.history[k].Collected? && Careful(s, ms)
    ensures Run(s, ms).Next?
    ensures var r := Run(s, ms).state; var c := s.history[k].child;
      t in r.procs && r.procs[t].pc.Running? ==> Step(r, t, Wait(c)) == Next(Log(r, Refused(t, c)))
  {
    RunsSafe(s, ms);
    HistoryGrows(s, ms, k);
    var r := Run(s, ms).state;
    var c := s.history[k].child;
    CountsOne(r.history, k);
    if t in r.procs {
      WalkOk(r, t);
      assert LinkOk(r, t, c) && Local(r, c);
    }
  }

  lemma {:induction false} HistoryGrows(s: State, ms: seq<Move>, k: nat)
    requires Inv(s) && k < |s.history| && Careful(s, ms)
    ensures Run(s, ms).Next? && k < |Run(s, ms).state.history| && Run(s, ms).state.history[k] == s.history[k]
    decreases |ms|
  {
    if ms != [] {
      StepSafe(s, ms[0].tid, ms[0].action);
      match Step(s, ms[0].tid, ms[0].action) {
        case Next(r) => HistoryGrows(r, ms[1..], k);
        case Blocked => HistoryGrows(s, ms[1..], k);
      }
    }
  }

  /** A thread block is queued for freeing, or is freed, only after the parent has read its status and
      unlinked it; from then on no list of children names it. */
  lemma FreedOnlyAfterCollected(ms: seq<Move>, c: nat, t: nat)
    requires Careful(Boot(), ms)
    ensures Run(Boot(), ms).Next?
    ensures var r := Run(Boot(), ms).state;
      (c < r.next && c !in r.procs) || (c in r.procs && r.procs[c].pc.Dying?) ==>
        Collections(r.history, c) == 1 && !IsLinked(r, t, c)
  {
    BootOk();
    RunsSafe(Boot(), ms);
    var r := Run(Boot(), ms).state;
    assert Local(r, c) && LinkOk(r, t, c);
  }

  /** Waiting for a child that has signalled never sleeps; waiting for one that has not, always does. */
  lemma WaitProceedsIff(s: State, t: nat, c: nat)
    requires Inv(s) && t in s.procs && s.procs[t].pc == InWait(c)
    ensures c in s.procs
    ensures Step(s, t, DownWait).Next? <==> s.procs[c].pc.Signalled?
  {
    assert Local(s, t) && LinkOk(s, t, c);
    assert Local(s, c);
  }

  // ---------------------------------------------------------------- orphans

  predicate Leaving(s: State, t: nat) {
    t !in s.procs || s.procs[t].pc.Exiting? || s.procs[t].pc.Signalled? || s.procs[t].pc.Dying?
  }

  predicate Orphan(s: State, c: nat) {
    c in s.procs && Collections(s.history, c) == 0 &&
    s.procs[c].parent.Some? && Leaving(s, s.procs[c].parent.value)
  }

  /** Nobody else collects a child: one whose parent exits without waiting keeps its thread block for
      as long as the kernel runs. */
  lemma {:induction false} OrphanNeverFreed(s: State, ms: seq<Move>, c: nat)
    requires Inv(s) && Orphan(s, c) && Careful(s, ms)
    ensures Run(s, ms).Next? && Orphan(Run(s, ms).state, c)
    decreases |ms|
  {
    if ms != [] {
      StepSafe(s, ms[0].tid, ms[0].action);
      match Step(s, ms[0].tid, ms[0].action) {
        case Next(r) =>
          OrphanStep(s, ms[0].tid, ms[0].action, c);
          OrphanNeverFreed(r, ms[1..], c);
        case Blocked => OrphanNeverFreed(s, ms[1..], c);
      }
    }
  }

  lemma OrphanStep(s: State, t: nat, a: Action, c: nat)
    requires Inv(s) && Orphan(s, c) && Step(s, t, a).Next?
    ensures Orphan(Step(s, t, a).state, c)
  {
    var r := Step(s, t, a).state;
    assert Local(s, c) && Local(s, t) && Local(s, s.procs[c].parent.value);
    SameFamily(s, t, a, c);
    NotCollected(s, t, a, c);
    StillLeaving(s, t, a, s.procs[c].parent.value);
  }

  /** An orphan's block stays, and nobody is born into its parent's place. */
  lemma SameFamily(s: State, t: nat, a: Action, c: nat)
    requires Local(s, c) && Orphan(s, c) && Step(s, t, a).Next? && Local(s, t)
    ensures var r := Step(s, t, a).state;
      c in r.procs && r.procs[c].parent == s.procs[c].parent && r.next >= s.next
  {
  }

  lemma NotCollected(s: State, t: nat, a: Action, c: nat)
    requires Orphan(s, c) && Step(s, t, a).Next? && Local(s, t)
    ensures Collections(Step(s, t, a).state.history, c) == 0
  {
    var o := HistoryStep(s, t, a);
    NobodyCollects(s, t, c);
    if o.Some? { Appended(s.history, o.value, c); }
  }

  lemma NobodyCollects(s: State, t: nat, c: nat)
    requires Local(s, t) && Orphan(s, c) && t in s.procs
    ensures !(s.procs[t].pc.WaitUnlinked? && s.procs[t].pc.child == c)
  {
  }

  lemma Appended(h: seq<Obs>, o: Obs, c: nat)
    ensures Collections(h + [o], c) == Collections(h, c) + Bit(o.Collected? && o.child == c)
  {
    assert (h + [o])[..|h|] == h;
  }

  /** What an action adds to the history, if anything. */
  lemma HistoryStep(s: State, t: nat, a: Action) returns (o: Option<Obs>)
    requires Step(s, t, a).Next?
    ensures var h := Step(s, t, a).state.history;
      if o.Some? then h == s.history + [o.value] else h == s.history
    ensures o.Some? && o.value.Collected? ==> s.procs[t].pc.WaitUnlinked? && s.procs[t].pc.child == o.value.child
  {
    o := None;
    var p := s.procs[t];
    match (p.pc, a) {
      case (ForkResumed(x), ReturnFork) => o := Some(Forked(t, x, s.procs[x].status != TID_ERROR));
      case (Running, Wait(x)) => if x !in p.children { o := Some(Refused(t, x)); }
      case (WaitUnlinked(x, code), UpFree) => o := Some(Collected(t, x, Reported(code)));
      case _ =>
    }
  }

  lemma StillLeaving(s: State, t: nat, a: Action, q: nat)
    requires q < s.next && Leaving(s, q) && Step(s, t, a).Next? && Local(s, t) && Local(s, q)
    ensures Leaving(Step(s, t, a).state, q)
  {
  }

  // ---------------------------------------------------------------- everyone else can be freed

  function Rank(pc: Pc): nat {
    match pc
    case ForkStart => 30 case ForkCopying(_) => 29 case InFork(_) => 23 case ForkResumed(_) => 22
    case WaitUnlinked(_, _) => 21 case Running => 20 case InWait(_) => 19 case WaitDowned(_) => 18
    case WaitRead(_, _) => 17 case ForkFailed => 16 case Exiting => 5 case Signalled => 4 case Dying => 3
  }

  /** How much a process has still to do before its block is freed, if it neither forks nor waits in vain. */
  function Weight(s: State, t: nat): nat {
    if t in s.procs then Rank(s.procs[t].pc) + 10 * |s.procs[t].children| else 0
  }

  function Work(s: State, n: nat): nat { if n == 0 then 0 else Work(s, n - 1) + Weight(s, n - 1) }

  lemma {:induction false} WorkSame(s: State, r: State, n: nat)
    requires forall x: nat :: x < n ==> Weight(r, x) == Weight(s, x)
    ensures Work(r, n) == Work(s, n)
  {
    if n > 0 { WorkSame(s, r, n - 1); }
  }

  lemma {:induction false} WorkLess(s: State, r: State, n: nat, t: nat)
    requires t < n && Weight(r, t) < Weight(s, t)
    requires forall x: nat :: x < n && x != t ==> Weight(r, x) == Weight(s, x)
    ensures Work(r, n) < Work(s, n)
  {
    if t == n - 1 { WorkSame(s, r, n - 1); } else { WorkLess(s, r, n - 1, t); }
  }

  /** A move that brings its process nearer to its end. */
  predicate Useful(s: State, m: Move) {
    Step(s, m.tid, m.action).Next? && !m.action.Fork? &&
    (m.action.Wait? ==> IsLinked(s, m.tid, m.action.child))
  }

  lemma UsefulShrinks(s: State, m: Move)
    requires Inv(s) && Useful(s, m)
    ensures var r := Step(s, m.tid, m.action).state; r.next == s.next && Work(r, r.next) < Work(s, s.next)
  {
    var r := Step(s, m.tid, m.action).state;
    assert Local(s, m.tid);
    Lighter(s, m, m.tid);
    forall x: nat | x < s.next && x != m.tid ensures Weight(r, x) == Weight(s, x) { Lighter(s, m, x); }
    WorkLess(s, r, s.next, m.tid);
  }

  lemma Lighter(s: State, m: Move, x: nat)
    requires Useful(s, m)
    ensures var r := Step(s, m.tid, m.action).state;
      r.next == s.next && if x == m.tid then Weight(r, x) < Weight(s, x) else Weight(r, x) == Weight(s, x)
  {
    if x == m.tid { OwnMove(s, m.tid, m.action); } else { Bystander(s, m.tid, m.action, x); }
  }

  /** A move leaves the place and the kin of every other process alone. */
  lemma Bystander(s: State, t: nat, a: Action, x: nat)
    requires Step(s, t, a).Next? && !a.Fork? && x != t
    ensures var r := Step(s, t, a).state;
      r.next == s.next && (x in r.procs <==> x in s.procs) &&
      (x in s.procs ==> r.procs[x].pc == s.procs[x].pc && r.procs[x].children == s.procs[x].children &&
                        r.procs[x].parent == s.procs[x].parent)
  {
  }

  lemma OwnMove(s: State, t: nat, a: Action)
    requires Step(s, t, a).Next? && !a.Fork? && (a.Wait? ==> IsLinked(s, t, a.child))
    ensures Weight(Step(s, t, a).state, t) < Weight(s, t)
  {
    var p := s.procs[t];
    OwnPlace(s, t, a);
    if p.pc.WaitRead? && p.pc.child in p.children {
      assert |p.children - {p.pc.child}| == |p.children| - 1;
    }
  }

  /** The mover gets on: to a place of lower rank, or by losing a child, or by being freed. */
  lemma OwnPlace(s: State, t: nat, a: Action)
    requires Step(s, t, a).Next? && !a.Fork? && (a.Wait? ==> IsLinked(s, t, a.child))
    ensures var r := Step(s, t, a).state; var p := s.procs[t];
      (t !in r.procs <==> a.Free?) &&
      (t in r.procs ==>
         if a.Unlink? then p.pc.WaitRead? && p.pc.child in p.children && r.procs[t].pc.WaitUnlinked? &&
                           r.procs[t].children == p.children - {p.pc.child}
         else r.procs[t].children == p.children && Rank(r.procs[t].pc) < Rank(p.pc))
  {
  }

  /** Unless it is past its signal, a process can get on, or one of its descendants whom it waits for can.  A process
      that still has a child to wait for need not exit. */
  lemma {:induction false} CanAdvance(s: State, y: nat, c: Option<nat>) returns (m: Move)
    requires Inv(s) && y in s.procs && !s.procs[y].pc.Signalled? && !s.procs[y].pc.Dying?
    requires c.Some? ==> !s.procs[y].pc.Exiting? && Expects(s, y, c.value)
    ensures Useful(s, m) && m.tid >= y && !m.action.Free? && !m.action.DownFree?
    ensures c.Some? && m.tid == y ==> !m.action.Exit? && !m.action.UpWait?
    decreases s.next - y
  {
    assert Local(s, y);
    match s.procs[y].pc {
      case InFork(z) => m := AdvanceFork(s, y, z);
      case InWait(z) =>
        assert LinkOk(s, y, z);
        assert Local(s, z);
        if s.procs[z].waitSema > 0 {
          m := Move(y, DownWait);
        } else {
          m := CanAdvance(s, z, None);
        }
      case _ => m := AdvanceSelf(s, y, c);
    }
  }

  /** `c` is a child `y` has still to collect. */
  predicate Expects(s: State, y: nat, c: nat) {
    IsLinked(s, y, c) || (y in s.procs && s.procs[y].pc.WaitUnlinked? && s.procs[y].pc.child == c)
  }

  lemma AdvanceFork(s: State, y: nat, z: nat) returns (m: Move)
    requires Inv(s) && y in s.procs && s.procs[y].pc == InFork(z)
    ensures Useful(s, m) && m.tid >= y && !m.action.Free? && !m.action.DownFree? && !m.action.Exit? && !m.action.UpWait?
  {
    assert Local(s, y) && LinkOk(s, y, z);
    assert Local(s, z);
    m := if s.procs[y].forkSema > 0 then Move(y, DownFork)
         else if s.procs[z].pc.ForkStart? then Move(z, ReadInfo)
         else Move(z, FinishCopy(true));
  }

  /** What a process does next that waits for nobody. */
  lemma AdvanceSelf(s: State, y: nat, c: Option<nat>) returns (m: Move)
    requires Inv(s) && y in s.procs && !s.procs[y].pc.Signalled? && !s.procs[y].pc.Dying?
    requires !s.procs[y].pc.InFork? && !s.procs[y].pc.InWait?
    requires c.Some? ==> !s.procs[y].pc.Exiting? && Expects(s, y, c.value)
    ensures Useful(s, m) && m.tid == y && !m.action.Free? && !m.action.DownFree?
    ensures c.Some? ==> !m.action.Exit? && !m.action.UpWait?
  {
    assert Local(s, y);
    WalkOk(s, y);
    var a: Action;
    match s.procs[y].pc {
      case Running => a := if c.Some? then Wait(c.value) else Exit(0);
      case ForkStart => a := ReadInfo;
      case ForkCopying(q) => a := FinishCopy(true);
      case ForkFailed => a := Exit(TID_ERROR);
      case ForkResumed(z) => a := ReturnFork;
      case WaitDowned(z) => a := ReadStatus; assert LinkOk(s, y, z);
      case WaitRead(z, code) => a := Unlink;
      case WaitUnlinked(z, code) => a := UpFree;
      case Exiting => a := UpWait;
      case _ =>
    }
    m := Move(y, a);
  }

  /** A child with a parent that will not, or need not, leave before collecting it. */
  predicate Collectable(s: State, c: nat) { c in s.procs && s.procs[c].parent.Some? && !Orphan(s, c) }

  lemma NextMove(s: State, c: nat) returns (m: Move)
    requires Inv(s) && Collectable(s, c)
    ensures Useful(s, m)
    ensures var r := Step(s, m.tid, m.action).state; c !in r.procs || Collectable(r, c)
  {
    assert Local(s, c);
    var q := s.procs[c];
    if Collections(s.history, c) > 0 {
      m := Move(c, if q.pc.Dying? then Free else DownFree);
      if q.pc.Signalled? { CollectionsGrow(s, c, DownFree, c); }
    } else {
      var p := q.parent.value;
      assert Local(s, p);
      m := CanAdvance(s, p, Some(c));
      StaysCollectable(s, m, c, p);
    }
  }

  lemma StaysCollectable(s: State, m: Move, c: nat, p: nat)
    requires Inv(s) && Collectable(s, c) && s.procs[c].parent == Some(p) && p != c && !Leaving(s, p)
    requires Useful(s, m) && !m.action.Free? && !m.action.DownFree? && (m.tid == p ==> !m.action.Exit? && !m.action.UpWait?)
    ensures Collectable(Step(s, m.tid, m.action).state, c)
  {
    if m.tid != c { Bystander(s, m.tid, m.action, c); } else { OwnKin(s, c, m.action); }
    if m.tid != p { Bystander(s, m.tid, m.action, p); } else { OwnKin(s, p, m.action); }
  }

  /** A move other than a free keeps the mover and its parent, and only an exit makes it leave. */
  lemma OwnKin(s: State, t: nat, a: Action)
    requires Step(s, t, a).Next? && !a.Free? && !a.Fork?
    ensures var r := Step(s, t, a).state;
      t in r.procs && r.procs[t].parent == s.procs[t].parent &&
      (!Leaving(s, t) && !a.Exit? ==> !Leaving(r, t))
  {
  }

  lemma CollectionsGrow(s: State, t: nat, a: Action, c: nat)
    requires Step(s, t, a).Next? && a.DownFree?
    ensures Collections(Step(s, t, a).state.history, c) == Collections(s.history, c)
    ensures t in Step(s, t, a).state.procs && Step(s, t, a).state.procs[t].parent == s.procs[t].parent
  {
  }

  lemma {:induction false} Freeable(s: State, c: nat) returns (ms: seq<Move>)
    requires Inv(s) && Collectable(s, c)
    ensures Run(s, ms).Next? && c !in Run(s, ms).state.procs
    decreases Work(s, s.next)
  {
    var m := NextMove(s, c);
    var r := Step(s, m.tid, m.action).state;
    StepSafe(s, m.tid, m.action);
    UsefulShrinks(s, m);
    var rest := [];
    if c in r.procs { rest := Freeable(r, c); }
    ms := [m] + rest;
    assert ms[1..] == rest;
  }

  /** A child's block can still be freed if and only if the child is no orphan: its parent has collected it, or has
      not begun to exit. */
  lemma FreeableIff(s: State, c: nat)
    requires Inv(s) && c in s.procs && s.procs[c].parent.Some?
    ensures (exists ms: seq<Move> :: Run(s, ms).Next? && c !in Run(s, ms).state.procs) <==> !Orphan(s, c)
  {
    if Orphan(s, c) {
      forall ms: seq<Move> | Run(s, ms).Next? ensures c in Run(s, ms).state.procs {
        RunsSafe(s, ms);
        OrphanNeverFreed(s, ms, c);
      }
    } else {
      var ms := Freeable(s, c);
    }
  }

  // ---------------------------------------------------------------- what fork reports

  /** fork answers TID_ERROR exactly when the child has by then exited with -1.  So it tells rightly whether the child
      was made if and only if the child was made and has not exited with -1 yet, or was not and has exited already. */
  lemma ForkReportsIff(s: State, t: nat, c: nat)
    requires Inv(s) && t in s.procs && s.procs[t].pc == ForkResumed(c)
    ensures c in s.made && Step(s, t, ReturnFork).Next?
    ensures var reported := !(c in s.exits && s.exits[c] == TID_ERROR);
      Step(s, t, ReturnFork).state.history == s.history + [Forked(t, c, reported)] &&
      (reported == s.made[c] <==>
         (s.made[c] && (c in s.exits ==> s.exits[c] != TID_ERROR)) || (!s.made[c] && c in s.exits))
  {
    ReturnForkSafe(s, t, c);
    assert Local(s, t) && LinkOk(s, t, c);
    assert Local(s, c);
    assert InfoOk(s, c);
  }

  /** Both kinds of wrong report happen: the parent may resume before a failed child has
      set its status, and after a good child has already exited with -1. */
  lemma ForkReportsRace()
    ensures Run(Boot(), [Move(0, Fork), Move(1, ReadInfo), Move(1, FinishCopy(false)), Move(0, DownFork),
                         Move(0, ReturnFork)]).Next?
    ensures Run(Boot(), [Move(0, Fork), Move(1, ReadInfo), Move(1, FinishCopy(false)), Move(0, DownFork),
                         Move(0, ReturnFork)]).state.history == [Forked(0, 1, true)]
    ensures Run(Boot(), [Move(0, Fork), Move(1, ReadInfo), Move(1, FinishCopy(true)), Move(1, Exit(-1)),
                         Move(0, DownFork), Move(0, ReturnFork)]).Next?
    ensures Run(Boot(), [Move(0, Fork), Move(1, ReadInfo), Move(1, FinishCopy(true)), Move(1, Exit(-1)),
                         Move(0, DownFork), Move(0, ReturnFork)]).state.history == [Forked(0, 1, false)]
  {
    FailedChildHidden();
    GoodChildGone();
  }

  lemma FailedChildHidden()
    ensures var ms := [Move(0, Fork), Move(1, ReadInfo), Move(1, FinishCopy(false)), Move(0, DownFork), Move(0, ReturnFork)];
      Run(Boot(), ms).Next? && Run(Boot(), ms).state.history == [Forked(0, 1, true)]
  {
    var s1 := Step(Boot(), 0, Fork).state;
    var s2 := Step(s1, 1, ReadInfo).state;
    var s3 := Step(s2, 1, FinishCopy(false)).state;
    var s4 := Step(s3, 0, DownFork).state;
    var s5 := Step(s4, 0, ReturnFork).state;
    assert Run(s4, [Move(0, ReturnFork)]) == Next(s5);
  }

  lemma GoodChildGone()
    ensures var ms := [Move(0, Fork), Move(1, ReadInfo), Move(1, FinishCopy(true)), Move(1, Exit(-1)),
                       Move(0, DownFork), Move(0, ReturnFork)];
      Run(Boot(), ms).Next? && Run(Boot(), ms).state.history == [Forked(0, 1, false)]
  {
    var s1 := Step(Boot(), 0, Fork).state;
    var s2 := Step(s1, 1, ReadInfo).state;
    var s3 := Step(s2, 1, FinishCopy(true)).state;
    var s4 := Step(s3, 1, Exit(-1)).state;
    var s5 := Step(s4, 0, DownFork).state;
    var s6 := Step(s5, 0, ReturnFork).state;
    assert Run(s5, [Move(0, ReturnFork)]) == Next(s6);
  }

  // ---------------------------------------------------------------- forking twice

  /** A parent 0 and its child 1. */
  function Two(p: Proc, c: Proc, infos: map<nat, nat>, made: map<nat, bool>, exits: map<nat, int>, h: seq<Obs>): State {
    State(map[0 := p, 1 := c], infos, 2, made, exits, h)
  }

  function Parent(pc: Pc, children: set<nat>, forkSema: nat): Proc { Proc(pc, None, 0, children, forkSema, 0, 0) }

  function Child(pc: Pc, waitSema: nat, freeSema: nat): Proc { Proc(pc, Some(0), 0, {}, 0, waitSema, freeSema) }

  /** The states of a parent that forks, waits for its child and lets it be freed. */
  function Stage(k: nat): State
    requires k <= 14
  {
    match k
    case 0 => Boot()
    case 1 => Two(Parent(InFork(1), {1}, 0), Child(ForkStart, 0, 0), map[1 := 0], map[], map[], [])
    case 2 => Two(Parent(InFork(1), {1}, 0), Child(ForkCopying(0), 0, 0), map[1 := 0], map[], map[], [])
    case 3 => Two(Parent(InFork(1), {1}, 1), Child(Running, 0, 0), map[1 := 0], map[1 := true], map[], [])
    case 4 => Two(Parent(ForkResumed(1), {1}, 0), Child(Running, 0, 0), map[1 := 0], map[1 := true], map[], [])
    case 5 => Two(Parent(Running, {1}, 0), Child(Running, 0, 0), map[], map[1 := true], map[], [Forked(0, 1, true)])
    case 6 => Two(Parent(Running, {1}, 0), Child(Exiting, 0, 0), map[], map[1 := true], map[1 := 0], [Forked(0, 1, true)])
    case 7 => Two(Parent(Running, {1}, 0), Child(Signalled, 1, 0), map[], map[1 := true], map[1 := 0], [Forked(0, 1, true)])
    case 8 => Two(Parent(InWait(1), {1}, 0), Child(Signalled, 1, 0), map[], map[1 := true], map[1 := 0], [Forked(0, 1, true)])
    case 9 => Two(Parent(WaitDowned(1), {1}, 0), Child(Signalled, 0, 0), map[], map[1 := true], map[1 := 0], [Forked(0, 1, true)])
    case 10 => Two(Parent(WaitRead(1, 0), {1}, 0), Child(Signalled, 0, 0), map[], map[1 := true], map[1 := 0], [Forked(0, 1, true)])
    case 11 => Two(Parent(WaitUnlinked(1, 0), {}, 0), Child(Signalled, 0, 0), map[], map[1 := true], map[1 := 0], [Forked(0, 1, true)])
    case 12 => Two(Parent(Running, {}, 0), Child(Signalled, 0, 1), map[], map[1 := true], map[1 := 0], [Forked(0, 1, true), Collected(0, 1, 0)])
    case 13 => Two(Parent(Running, {}, 0), Child(Dying, 0, 0), map[], map[1 := true], map[1 := 0], [Forked(0, 1, true), Collected(0, 1, 0)])
    case _ => State(map[0 := Parent(Running, {}, 0)], map[], 2, map[1 := true], map[1 := 0], [Forked(0, 1, true), Collected(0, 1, 0)])
  }

  const Story: seq<Move> := [
    Move(0, Fork), Move(1, ReadInfo), Move(1, FinishCopy(true)), Move(0, DownFork), Move(0, ReturnFork),
    Move(1, Exit(0)), Move(1, UpWait), Move(0, Wait(1)), Move(0, DownWait), Move(0, ReadStatus),
    Move(0, Unlink), Move(0, UpFree), Move(1, DownFree), Move(1, Free)]

  lemma SetHints()
    ensures {} + {1} == {1} && {1} - {1} == {}
  {
  }

  lemma EarlyStages(k: nat)
    requires 0 <= k < 3
    ensures Step(Stage(k), Story[k].tid, Story[k].action) == Next(Stage(k + 1))
  {
    SetHints();
    var r := Step(Stage(k), Story[k].tid, Story[k].action).state;
    assert r.procs == Stage(k + 1).procs && r.infos == Stage(k + 1).infos && r.made == Stage(k + 1).made;
    assert r.exits == Stage(k + 1).exits && r.history == Stage(k + 1).history;
  }

  lemma ForkingStages(k: nat)
    requires 3 <= k < 6
    ensures Step(Stage(k), Story[k].tid, Story[k].action) == Next(Stage(k + 1))
  {
    SetHints();
    var r := Step(Stage(k), Story[k].tid, Story[k].action).state;
    assert r.procs == Stage(k + 1).procs && r.infos == Stage(k + 1).infos && r.made == Stage(k + 1).made;
    assert r.exits == Stage(k + 1).exits && r.history == Stage(k + 1).history;
  }

  lemma WaitingStages(k: nat)
    requires 6 <= k < 9
    ensures Step(Stage(k), Story[k].tid, Story[k].action) == Next(Stage(k + 1))
  {
    SetHints();
    var r := Step(Stage(k), Story[k].tid, Story[k].action).state;
    assert r.procs == Stage(k + 1).procs && r.infos == Stage(k + 1).infos && r.made == Stage(k + 1).made;
    assert r.exits == Stage(k + 1).exits && r.history == Stage(k + 1).history;
  }

  lemma CollectingStages(k: nat)
    requires 9 <= k < 12
    ensures Step(Stage(k), Story[k].tid, Story[k].action) == Next(Stage(k + 1))
  {
    SetHints();
    var r := Step(Stage(k), Story[k].tid, Story[k].action).state;
    assert r.procs == Stage(k + 1).procs && r.infos == Stage(k + 1).infos && r.made == Stage(k + 1).made;
    assert r.exits == Stage(k + 1).exits && r.history == Stage(k + 1).history;
  }

  lemma FreeingStages(k: nat)
    requires 12 <= k < 14
    ensures Step(Stage(k), Story[k].tid, Story[k].action) == Next(Stage(k + 1))
  {
    SetHints();
    var r := Step(Stage(k), Story[k].tid, Story[k].action).state;
    assert r.procs == Stage(k + 1).procs && r.infos == Stage(k + 1).infos && r.made == Stage(k + 1).made;
    assert r.exits == Stage(k + 1).exits && r.history == Stage(k + 1).history;
  }

  lemma {:induction false} StoryRuns(k: nat)
    requires k <= 14
    ensures Run(Boot(), Story[..k]) == Next(Stage(k))
  {
    if k > 0 {
      StoryRuns(k - 1);
      StageStep(k - 1);
      var m := Story[k - 1];
      RunConcat(Boot(), Story[..k - 1], [m]);
      RunOne(Stage(k - 1), m, Stage(k));
      assert Story[..k - 1] + [m] == Story[..k];
    }
  }

  lemma StageStep(k: nat)
    requires k < 14
    ensures Step(Stage(k), Story[k].tid, Story[k].action) == Next(Stage(k + 1))
  {
    if k < 3 { EarlyStages(k); } else if k < 6 { ForkingStages(k); } else if k < 9 { WaitingStages(k); }
    else if k < 12 { CollectingStages(k); } else { FreeingStages(k); }
  }

  lemma RunOne(s: State, m: Move, r: State)
    requires Step(s, m.tid, m.action) == Next(r)
    ensures Run(s, [m]) == Next(r)
  {
    assert [m][1..] == [];
  }

  /** The plainest program there is, fork, wait, fork, makes the second fork write into the first child's freed block. */
  lemma ForkWaitForkFaults()
    ensures Run(Boot(), Story[..14]).Next? && Run(Boot(), Story[..14] + [Move(0, Fork)]).Fault?
  {
    StoryRuns(14);
    ForkFaultsAfter(Story[..14]);
  }

  lemma ForkFaultsAfter(ms: seq<Move>)
    requires Run(Boot(), ms) == Next(Stage(14))
    ensures Run(Boot(), ms + [Move(0, Fork)]).Fault?
  {
    RunConcat(Boot(), ms, [Move(0, Fork)]);
    assert Step(Stage(14), 0, Fork) == Fault;
  }

  lemma {:induction false} RunConcat(s: State, a: seq<Move>, b: seq<Move>)
    requires Run(s, a).Next?
    ensures Run(s, a + b) == Run(Run(s, a).state, b)
    decreases |a|
  {
    if a == [] {
      assert a + b == b;
    } else {
      assert (a + b)[1..] == a[1..] + b;
      match Step(s, a[0].tid, a[0].action) {
        case Next(r) => RunConcat(r, a[1..], b);
        case Blocked => RunConcat(s, a[1..], b);
      }
    }
  }
}
