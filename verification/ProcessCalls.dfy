/**
 Whole system calls of pintos-kaist/userprog/process.c, put together from the actions of the handshake: what
 fork, exit and wait have brought about when they return.
 */
module ProcessCalls {
  import opened Wrappers
  import opened ProcessWait

  /** Every process but `t` and `c` is as before. */
  ghost predicate OthersSame(s: State, r: State, t: nat, c: nat) {
    forall x: nat {:trigger x in r.procs} {:trigger x in s.procs} :: x != t && x != c ==>
      (x in r.procs <==> x in s.procs) && (x in s.procs ==> r.procs[x] == s.procs[x])
  }

  lemma RunStep(s: State, m: Move, r: State, rest: seq<Move>)
    requires Step(s, m.tid, m.action) == Next(r)
    ensures Run(s, [m] + rest) == Run(r, rest)
  {
    assert ([m] + rest)[1..] == rest;
  }

  // ---------------------------------------------------------------- fork

  /** fork creates a child with a fresh tid, no children and no status, whose parent is the caller. */
  lemma ForkDoes(s: State, t: nat)
    requires Inv(s) && t in s.procs && s.procs[t].pc.Running? && s.next - 1 in s.procs
    ensures s.next !in s.procs && Step(s, t, Fork).Next?
    ensures var r, c := Step(s, t, Fork).state, s.next;
      && c in r.procs && r.procs[c] == Proc(ForkStart, Some(t), 0, {}, 0, 0, 0)
      && t in r.procs && r.procs[t] == s.procs[t].(pc := InFork(c), children := s.procs[t].children + {c})
      && OthersSame(s, r, t, c) && r.infos == s.infos[c := t] && r.next == s.next + 1
      && r.made == s.made && r.exits == s.exits && r.history == s.history
  {
    WalkOk(s, t);
    assert Local(s, s.next);
  }

  /** A fork that nobody interrupts: the child runs, the parent has its tid, and nothing of the fork is left behind.  A child
      that could not be made is about to exit, and the parent is told, wrongly, that it was made. */
  lemma ForkReturns(s: State, t: nat, ok: bool) returns (ms: seq<Move>, r: State)
    requires Inv(s) && t in s.procs && s.procs[t].pc.Running? && s.next - 1 in s.procs
    ensures ms == [Move(t, Fork), Move(s.next, ReadInfo), Move(s.next, FinishCopy(ok)), Move(t, DownFork), Move(t, ReturnFork)]
    ensures Run(s, ms) == Next(r)
    ensures var c := s.next;
      && c !in s.procs && c in r.procs && r.procs[c] == Proc(if ok then Running else ForkFailed, Some(t), 0, {}, 0, 0, 0)
      && t in r.procs && r.procs[t] == s.procs[t].(children := s.procs[t].children + {c})
      && OthersSame(s, r, t, c) && r.infos == s.infos && r.next == s.next + 1
      && r.made == s.made[c := ok] && r.exits == s.exits && r.history == s.history + [Forked(t, c, true)]
  {
    var c := s.next;
    ForkDoes(s, t);
    if c in s.infos { InfoThere(s, c); }
    assert Local(s, t) && Local(s, c);
    var s1 := Step(s, t, Fork).state;
    var s3, m2, m3 := ChildSide(s1, t, c, ok);
    var m4, m5;
    WalkOk(s, t);
    r, m4, m5 := ParentSide(s3, t, c);
    var m1 := Move(t, Fork);
    RunFive(s, s1, Step(s1, c, ReadInfo).state, s3, Step(s3, t, DownFork).state, r, m1, m2, m3, m4, m5);
    ms := [m1, m2, m3, m4, m5];
  }

  /** Only a thread that exists has a fork_info. */
  lemma InfoThere(s: State, c: nat)
    requires Inv(s) && c in s.infos
    ensures c in s.procs
  {
    assert Local(s, c);
    assert Local(s, s.infos[c]) && LinkOk(s, s.infos[c], c);
  }

  lemma ChildSide(s: State, t: nat, c: nat, ok: bool) returns (r: State, m: Move, m': Move)
    requires t in s.procs && c in s.procs && c != t && c in s.infos && s.infos[c] == t && s.procs[c].pc == ForkStart
    ensures m == Move(c, ReadInfo) && m' == Move(c, FinishCopy(ok))
    ensures Step(s, c, ReadInfo).Next? && Step(Step(s, c, ReadInfo).state, c, FinishCopy(ok)) == Next(r)
    ensures t in r.procs && r.procs[t] == s.procs[t].(forkSema := s.procs[t].forkSema + 1)
    ensures c in r.procs && r.procs[c] == s.procs[c].(pc := if ok then Running else ForkFailed)
    ensures r == s.(procs := r.procs, made := s.made[c := ok]) && r.procs.Keys == s.procs.Keys && OthersSame(s, r, t, c)
  {
    m, m' := Move(c, ReadInfo), Move(c, FinishCopy(ok));
    r := Step(Step(s, c, ReadInfo).state, c, FinishCopy(ok)).state;
  }

  lemma ParentSide(s: State, t: nat, c: nat) returns (r: State, m: Move, m': Move)
    requires t in s.procs && c in s.procs && c != t && c in s.infos && s.procs[t].pc == InFork(c) && s.procs[t].forkSema == 1
    requires c in s.procs[t].children && s.procs[t].children <= s.procs.Keys && s.procs[c].status == 0
    ensures m == Move(t, DownFork) && m' == Move(t, ReturnFork)
    ensures Step(s, t, DownFork).Next? && Step(Step(s, t, DownFork).state, t, ReturnFork) == Next(r)
    ensures r == s.(procs := s.procs[t := s.procs[t].(pc := Running, forkSema := 0)], infos := s.infos - {c},
                    history := s.history + [Forked(t, c, true)])
  {
    m, m' := Move(t, DownFork), Move(t, ReturnFork);
    r := Step(Step(s, t, DownFork).state, t, ReturnFork).state;
  }

  lemma RunFive(s: State, s1: State, s2: State, s3: State, s4: State, r: State, m1: Move, m2: Move, m3: Move, m4: Move, m5: Move)
    requires Step(s, m1.tid, m1.action) == Next(s1) && Step(s1, m2.tid, m2.action) == Next(s2)
    requires Step(s2, m3.tid, m3.action) == Next(s3) && Step(s3, m4.tid, m4.action) == Next(s4)
    requires Step(s4, m5.tid, m5.action) == Next(r)
    ensures Run(s, [m1, m2, m3, m4, m5]) == Next(r)
  {
    RunStep(s, m1, s1, [m2, m3, m4, m5]);
    RunStep(s1, m2, s2, [m3, m4, m5]);
    RunStep(s2, m3, s3, [m4, m5]);
    RunStep(s3, m4, s4, [m5]);
    RunStep(s4, m5, r, []);
    assert [m1] + [m2, m3, m4, m5] == [m1, m2, m3, m4, m5];
    assert [m2] + [m3, m4, m5] == [m2, m3, m4, m5];
    assert [m3] + [m4, m5] == [m3, m4, m5];
    assert [m4] + [m5] == [m4, m5];
    assert [m5] + [] == [m5];
  }

  // ---------------------------------------------------------------- exit

  /** exit records its status, and the signal to the parent goes up. */
  lemma ExitDoes(s: State, t: nat, code: int) returns (r: State)
    requires Inv(s) && t in s.procs && s.procs[t].pc.Running?
    ensures Run(s, [Move(t, Exit(code)), Move(t, UpWait)]) == Next(r)
    ensures t in r.procs && r.procs[t] == s.procs[t].(pc := Signalled, status := code, waitSema := 1)
    ensures OthersSame(s, r, t, t) && r.exits == s.exits[t := code]
    ensures r.infos == s.infos && r.next == s.next && r.made == s.made && r.history == s.history
  {
    assert Local(s, t);
    var s1 := Step(s, t, Exit(code)).state;
    r := Step(s1, t, UpWait).state;
    RunStep(s, Move(t, Exit(code)), s1, [Move(t, UpWait)]);
    RunStep(s1, Move(t, UpWait), r, []);
    assert [Move(t, Exit(code))] + [Move(t, UpWait)] == [Move(t, Exit(code)), Move(t, UpWait)];
    assert [Move(t, UpWait)] + [] == [Move(t, UpWait)];
  }

  /** A child that could not be made exits with -1 and nothing else. */
  lemma FailedExitDoes(s: State, t: nat, code: int)
    requires Inv(s) && t in s.procs && s.procs[t].pc.ForkFailed?
    ensures Step(s, t, Exit(code)).Next? <==> code == -1
    ensures code == -1 ==>
      var r := Step(s, t, Exit(code)).state;
      t in r.procs && r.procs[t] == s.procs[t].(pc := Exiting, status := -1) && OthersSame(s, r, t, t) && r.exits == s.exits[t := -1]
  {
  }

  /** Once its parent has taken the status, a process gives back its block, and nothing else changes. */
  lemma FreeDoes(s: State, t: nat) returns (r: State)
    requires Inv(s) && t in s.procs && s.procs[t].pc.Signalled? && s.procs[t].freeSema > 0
    ensures Run(s, [Move(t, DownFree), Move(t, Free)]) == Next(r)
    ensures t !in r.procs && OthersSame(s, r, t, t)
    ensures r.exits == s.exits && r.infos == s.infos && r.next == s.next && r.made == s.made && r.history == s.history
  {
    var s1 := Step(s, t, DownFree).state;
    r := Step(s1, t, Free).state;
    RunStep(s, Move(t, DownFree), s1, [Move(t, Free)]);
    RunStep(s1, Move(t, Free), r, []);
    assert [Move(t, DownFree)] + [Move(t, Free)] == [Move(t, DownFree), Move(t, Free)];
    assert [Move(t, Free)] + [] == [Move(t, Free)];
  }

  // ---------------------------------------------------------------- wait

  /** wait for anyone but an uncollected child of the caller returns at once. */
  lemma WaitRefusedIff(s: State, t: nat, c: nat)
    requires Inv(s) && t in s.procs && s.procs[t].pc.Running?
    ensures Step(s, t, Wait(c)).Next?
    ensures var r := Step(s, t, Wait(c)).state;
      if c in s.procs && s.procs[c].parent == Some(t) && Collections(s.history, c) == 0
      then r == s.(procs := s.procs[t := s.procs[t].(pc := InWait(c))])
      else r == s.(history := s.history + [Refused(t, c)])
  {
    WalkOk(s, t);
    assert LinkOk(s, t, c) && Local(s, c) && Local(s, t);
  }

  /** wait for a child that has signalled: the status that the child passed to exit, or -1 if that was negative; the child
      is no longer linked and may free its block. */
  lemma WaitReturns(s: State, t: nat, c: nat) returns (ms: seq<Move>, r: State)
    requires Inv(s) && t in s.procs && s.procs[t].pc.Running?
    requires c in s.procs && s.procs[c].parent == Some(t) && s.procs[c].pc.Signalled? && Collections(s.history, c) == 0
    ensures ms == [Move(t, Wait(c)), Move(t, DownWait), Move(t, ReadStatus), Move(t, Unlink), Move(t, UpFree)]
    ensures Run(s, ms) == Next(r) && c in s.exits && c != t
    ensures r.history == s.history + [Collected(t, c, if s.exits[c] < 0 then -1 else s.exits[c])]
    ensures t in r.procs && r.procs[t] == s.procs[t].(children := s.procs[t].children - {c})
    ensures c in r.procs && r.procs[c] == s.procs[c].(waitSema := 0, freeSema := 1)
    ensures OthersSame(s, r, t, c) && r.exits == s.exits && r.infos == s.infos && r.next == s.next && r.made == s.made
  {
    WalkOk(s, t);
    assert Local(s, t) && Local(s, c);
    assert LinkOk(s, t, c) && LinkOk(s, t, t);
    var s1 := Step(s, t, Wait(c)).state;
    var s2 := Step(s1, t, DownWait).state;
    var s3 := Step(s2, t, ReadStatus).state;
    var m1, m2, m3, m4, m5 := Move(t, Wait(c)), Move(t, DownWait), Move(t, ReadStatus), Move(t, Unlink), Move(t, UpFree);
    r := LetGo(s3, t, c, s.exits[c]);
    RunFive(s, s1, s2, s3, Step(s3, t, Unlink).state, r, m1, m2, m3, m4, m5);
    ms := [m1, m2, m3, m4, m5];
  }

  /** The end of a wait: unlinking the child and letting it go. */
  lemma LetGo(s: State, t: nat, c: nat, code: int) returns (r: State)
    requires t in s.procs && c in s.procs && c != t && s.procs[t].pc == WaitRead(c, code)
    requires c in s.procs[t].children && s.procs[t].children <= s.procs.Keys
    ensures Step(s, t, Unlink).Next? && Step(Step(s, t, Unlink).state, t, UpFree) == Next(r)
    ensures t in r.procs && r.procs[t] == s.procs[t].(pc := Running, children := s.procs[t].children - {c})
    ensures c in r.procs && r.procs[c] == s.procs[c].(freeSema := s.procs[c].freeSema + 1)
    ensures OthersSame(s, r, t, c)
    ensures r == s.(procs := r.procs, history := s.history + [Collected(t, c, if code < 0 then -1 else code)])
  {
    r := Step(Step(s, t, Unlink).state, t, UpFree).state;
  }
}
