/**
 What each call on descriptors has done when it returns (pintos-kaist/userprog/syscall.c and
 pintos-kaist/userprog/process.c), said of tables and handles without the functions that compute it.
 */
module DescriptorCalls {
  import opened Wrappers
  import opened Descriptors

  /** Every process but `p` is as before. */
  ghost predicate OthersSame(s: State, r: State, p: nat) {
    |r.procs| == |s.procs| && forall q :: 0 <= q < |s.procs| && q != p ==> r.procs[q] == s.procs[q]
  }

  /** A handle with one reference less, closed if that was the last; and with one more. */
  predicate Lost(f: Option<Handle>, f': Option<Handle>) {
    f.Some? && f' == if f.value.dup == 1 then None else Some(Handle(f.value.inode, f.value.dup - 1, f.value.deny))
  }

  predicate Gained(f: Option<Handle>, f': Option<Handle>) {
    f.Some? && f' == Some(Handle(f.value.inode, f.value.dup + 1, f.value.deny))
  }

  // ---------------------------------------------------------------- open

  /** A new handle on the inode asked for, under the first empty descriptor from `idx` on, if there is one. */
  lemma OpenDoes(s: State, p: nat, i: nat)
    requires Inv(s) && Alive(s, p)
    ensures var r, q := SysOpen(s, p, i), s.procs[p]; var q', k := r.procs[p], |s.files|;
      && OthersSame(s, r, p) && r.files == s.files + [Some(Handle(i, 1, false))]
      && (forall j :: j in r.inodes <==> j in s.inodes || j == i)
      && (forall j :: j in s.inodes && j != i ==> r.inodes[j] == s.inodes[j])
      && r.inodes[i] == (if i in s.inodes then Inode(s.inodes[i].openCnt + 1, s.inodes[i].denyCnt) else Inode(1, 0))
      && q'.running == q.running && q'.stdin == q.stdin && q'.stdout == q.stdout
      && q.idx <= q'.idx <= 1536 && (forall fd :: q.idx <= fd < q'.idx ==> q.table[fd] != Null)
      && (q'.idx < 1536 ==> q.table[q'.idx] == Null && q'.table == q.table[q'.idx := File(k)] && r.lost == s.lost)
      && (q'.idx == 1536 ==> q'.table == q.table && r.lost == s.lost + {k})
  {
    assert ProcOk(s.procs[p]);
    FirstFreeOk(s.procs[p].table, s.procs[p].idx);
  }

  // ---------------------------------------------------------------- close

  /** The descriptor is empty; the handle it named has one reference less, and is closed when that was the last.  No other
      handle changes. */
  lemma CloseDoes(s: State, p: nat, fd: nat)
    requires Inv(s) && Alive(s, p) && fd < 1536
    ensures SysClose(s, p, fd).Ok?
    ensures var r, q := SysClose(s, p, fd).state, s.procs[p]; var q', e := r.procs[p], q.table[fd];
      && OthersSame(s, r, p) && r.lost == s.lost && |r.files| == |s.files|
      && q'.table == q.table[fd := Null] && q'.idx == q.idx && q'.running == q.running
      && q'.stdin == q.stdin - (if e == Stdin then 1 else 0) && q'.stdout == q.stdout - (if e == Stdout then 1 else 0)
      && (forall k :: 0 <= k < |s.files| && e != File(k) ==> r.files[k] == s.files[k])
      && (e.File? ==> e.handle < |s.files| && Lost(s.files[e.handle], r.files[e.handle]))
  {
    if s.procs[p].table[fd].File? { NamedOpen(s, p, fd, map[]); }
    SysCloseValue(s, p, fd);
  }

  /** A number that is no descriptor is ignored. */
  lemma CloseIgnores(s: State, p: nat, fd: int)
    requires Alive(s, p) && !(0 <= fd < 1536)
    ensures SysClose(s, p, fd) == Ok(s)
  {
  }

  // ---------------------------------------------------------------- dup2

  /** `newfd` names what `oldfd` names, and everything else in the table and in other processes is as before. */
  lemma Dup2Does(s: State, p: nat, oldfd: nat, newfd: nat)
    requires Inv(s) && Alive(s, p) && oldfd < 1536 && newfd < 1536 && oldfd != newfd && s.procs[p].table[oldfd] != Null
    ensures SysDup2(s, p, oldfd, newfd).Ok?
    ensures var r, q := SysDup2(s, p, oldfd, newfd).state, s.procs[p]; var q', e, g := r.procs[p], q.table[oldfd], q.table[newfd];
      && OthersSame(s, r, p) && r.lost == s.lost && |r.files| == |s.files|
      && q'.table == q.table[newfd := e] && q'.idx == q.idx && q'.running == q.running
      && (forall k :: 0 <= k < |s.files| && e != File(k) && g != File(k) ==> r.files[k] == s.files[k])
      && (e.File? && g != e ==> e.handle < |s.files| && Gained(s.files[e.handle], r.files[e.handle]))
      && (e.File? && g == e ==> e.handle < |s.files| && r.files[e.handle] == s.files[e.handle])
      && (g.File? && g != e ==> g.handle < |s.files| && Lost(s.files[g.handle], r.files[g.handle]))
  {
    var a, r := Dup2Value(s, p, oldfd, newfd);
    var e, g := s.procs[p].table[oldfd], s.procs[p].table[newfd];
    if e.File? { HandleCounted(s, p, oldfd); }
    if g.File? { HandleCounted(s, p, newfd); }
    CountsMoved(s.files, a, e, g);
  }

  lemma HandleCounted(s: State, p: nat, fd: nat)
    requires Inv(s) && Alive(s, p) && fd < 1536 && s.procs[p].table[fd].File?
    ensures var k := s.procs[p].table[fd].handle; k < |s.files| && s.files[k].Some? && s.files[k].value.dup > 0
  {
    NamedOpen(s, p, fd, map[]);
    assert FileOk(s, s.procs[p].table[fd].handle, map[]);
  }

  /** The result of a dup2 that copies; `a` are the handles after the reference was added. */
  lemma Dup2Value(s: State, p: nat, oldfd: nat, newfd: nat) returns (a: seq<Option<Handle>>, r: State)
    requires Inv(s) && Alive(s, p) && oldfd < 1536 && newfd < 1536 && oldfd != newfd && s.procs[p].table[oldfd] != Null
    ensures SysDup2(s, p, oldfd, newfd) == Ok(r)
    ensures var q, e := s.procs[p], s.procs[p].table[oldfd];
      && (e.File? ==> e.handle < |s.files| && s.files[e.handle].Some?)
      && a == (if e.File? then s.files[e.handle := Some(s.files[e.handle].value.(dup := s.files[e.handle].value.dup + 1))] else s.files)
      && r.files == Dropped(a, q.table[newfd]) && r.lost == s.lost && OthersSame(s, r, p)
      && r.procs[p].table == q.table[newfd := e] && r.procs[p].idx == q.idx && r.procs[p].running == q.running
  {
    RetainFiles(s, p, oldfd);
    var q := s.procs[p];
    var e := q.table[oldfd];
    if e.File? { NamedOpen(s, p, oldfd, map[]); }
    var u := Retain(s, p, e).state;
    a := u.files;
    if q.table[newfd].File? { NamedOpen(u, p, newfd, Ahead(e)); }
    SysCloseValue(u, p, newfd);
    r := SysDup2(s, p, oldfd, newfd).state;
  }

  /** One reference to `e` more, then one to `g` less. */
  lemma CountsMoved(files: seq<Option<Handle>>, a: seq<Option<Handle>>, e: Entry, g: Entry)
    requires e.File? ==> e.handle < |files| && files[e.handle].Some? && files[e.handle].value.dup > 0
    requires g.File? ==> g.handle < |files| && files[g.handle].Some?
    requires a == if e.File? then files[e.handle := Some(files[e.handle].value.(dup := files[e.handle].value.dup + 1))] else files
    ensures var r := Dropped(a, g);
      && |r| == |files|
      && (forall k :: 0 <= k < |files| && e != File(k) && g != File(k) ==> r[k] == files[k])
      && (e.File? && g != e ==> Gained(files[e.handle], r[e.handle]))
      && (e.File? && g == e ==> r[e.handle] == files[e.handle])
      && (g.File? && g != e ==> Lost(files[g.handle], r[g.handle]))
  {
  }

  // ---------------------------------------------------------------- exec and exit

  /** The new executable has a handle of its own on its inode, which denies writes; the table is untouched. */
  lemma ExecDoes(s: State, p: nat, i: Option<nat>)
    requires Inv(s) && Alive(s, p)
    ensures Exec(s, p, i).Ok?
    ensures var r, q := Exec(s, p, i).state, s.procs[p];
      && OthersSame(s, r, p)
      && r.lost == s.lost + (if q.running.Some? then {q.running.value} else {})
      && (i.None? ==> r.procs[p] == q.(running := None) && r.files == s.files && r.inodes == s.inodes)
      && (i.Some? ==> r.procs[p] == q.(running := Some(|s.files|)) && r.files == s.files + [Some(Handle(i.value, 1, true))])
  {
    ExecOk(s, p, i);
    if i.Some? {
      var k := |s.files|;
      NewHandleInodes(s, i.value);
      var a := PutProc(NewHandle(s, i.value), p, s.procs[p].(running := Some(k)));
      var lost := Exec(s, p, None).state.lost;
      DenyWriteOk(a.(lost := lost), k);
      assert a.files[k := Some(Handle(i.value, 1, true))] == s.files + [Some(Handle(i.value, 1, true))];
    }
  }

  /** An exited process has no table and no executable, and other processes are as before. */
  lemma ExitDoes(s: State, p: nat)
    requires Inv(s) && Alive(s, p)
    ensures Exit(s, p).Ok?
    ensures var r := Exit(s, p).state;
      OthersSame(s, r, p) && r.procs[p].table == [] && r.procs[p].running.None? && |r.files| >= |s.files|
  {
    var a := CloseTableOk(s, p, MAX_FD);
    RunningClosed(a, p);
    CloseTableKeepsFiles(s, p, MAX_FD);
  }

  lemma {:induction false} CloseTableKeepsFiles(s: State, p: nat, n: nat)
    requires Inv(s) && Alive(s, p) && n <= MAX_FD
    ensures CloseTable(s, p, n).Ok? && |CloseTable(s, p, n).state.files| == |s.files|
    decreases n
  {
    var r := CloseTableOk(s, p, n);
    if n > 0 {
      var r0 := CloseTableOk(s, p, n - 1);
      CloseTableKeepsFiles(s, p, n - 1);
      CloseTableNext(s, r0, p, n - 1);
      SysCloseOk(r0, p, n - 1, map[]);
    }
  }

  // ---------------------------------------------------------------- fork

  /** What the child `c` has for descriptor `fd` of its parent: the same for the first two and for everything that is not a
      file, and a handle of its own on the same inode, just as deniable, for a file that could be duplicated. */
  ghost predicate EntryCopied(s: State, r: State, p: nat, c: nat, fd: nat, fails: set<nat>)
    requires Alive(s, p) && Alive(r, c) && fd < MAX_FD
  {
    var e, e' := s.procs[p].table[fd], r.procs[c].table[fd];
    if fd <= 1 || !e.File? then e' == e
    else if fd in fails then e' == Null
    else
      && e.handle < |s.files| && s.files[e.handle].Some?
      && e'.File? && |s.files| <= e'.handle < |r.files|
      && r.files[e'.handle] == Some(Handle(s.files[e.handle].value.inode, 1, s.files[e.handle].value.deny))
  }

  /** Descriptor `fd` names a file and its duplicate could be made. */
  predicate Duplicated(s: State, p: nat, fd: nat, fails: set<nat>)
    requires Alive(s, p)
  {
    2 <= fd < MAX_FD && s.procs[p].table[fd].File? && fd !in fails
  }

  ghost predicate HandlesRise(s: State, r: State, p: nat, c: nat, n: nat, fails: set<nat>)
    requires Alive(s, p) && Alive(r, c) && n <= MAX_FD
  {
    forall fd: nat, g: nat :: fd < g < n && Duplicated(s, p, fd, fails) && Duplicated(s, p, g, fails) ==>
      r.procs[c].table[fd].File? && r.procs[c].table[g].File? && r.procs[c].table[fd].handle < r.procs[c].table[g].handle
  }

  ghost predicate FilesCopied(s: State, r: State, p: nat, c: nat, n: nat, fails: set<nat>) {
    && Alive(s, p) && Alive(r, c) && n <= MAX_FD && s.files <= r.files
    && (forall fd: nat {:trigger EntryCopied(s, r, p, c, fd, fails)} :: fd < n ==> EntryCopied(s, r, p, c, fd, fails))
    && HandlesRise(s, r, p, c, n, fails)
  }

  lemma DuplicateIs(s: State, k: nat, fails: bool)
    requires InodesOk(s.files, s.inodes) && Open(s, k)
    ensures var (o, e) := Duplicate(s, k, fails); var f := s.files[k].value;
      o.Ok? && o.state.procs == s.procs &&
      if fails then e == Null && o.state == s
      else e == File(|s.files|) && o.state.files == s.files + [Some(Handle(f.inode, 1, f.deny))]
  {
    var f := s.files[k].value;
    OpenInode(s.files, s.inodes, k);
    if !fails {
      NewHandleInodes(s, f.inode);
      var a := NewHandle(s, f.inode);
      DenyWriteOk(a, |s.files|);
      assert a.files[|s.files| := Some(Handle(f.inode, 1, true))] == s.files + [Some(Handle(f.inode, 1, true))];
    }
  }

  /** One round of the copying loop. */
  lemma EntryStep(s: State, r: State, p: nat, c: nat, n: nat, fails: set<nat>, m: nat) returns (r': State)
    requires m == n + 1 <= MAX_FD && CopyOk(s, r, p, c, n) && s.procs[c] == NewProcess() && FilesOk(s, map[])
    requires ForkTable(s, p, c, n, fails) == Ok(r) && FilesCopied(s, r, p, c, n, fails)
    ensures ForkTable(s, p, c, m, fails) == Ok(r') && CopyOk(s, r', p, c, m) && FilesCopied(s, r', p, c, m, fails)
  {
    ForkTableNext(s, r, p, c, n, fails);
    r' := ForkEntryOk(s, r, p, c, n, fails);
    var e := s.procs[p].table[n];
    assert r.procs[p].table[n] == e && r.procs[c].table[n] == s.procs[c].table[n];
    if n > 1 && e.File? {
      NamedOpen(s, p, n, map[]);
      assert r.files[e.handle] == s.files[e.handle];
      DuplicateIs(r, e.handle, n in fails);
    }
    RoundCopied(s, r, r', p, c, n, fails);
  }

  lemma RoundCopied(s: State, r: State, r': State, p: nat, c: nat, n: nat, fails: set<nat>)
    requires FilesCopied(s, r, p, c, n, fails) && n < MAX_FD && Alive(r', c) && r.files <= r'.files
    requires forall fd :: 0 <= fd < MAX_FD && fd != n ==> r'.procs[c].table[fd] == r.procs[c].table[fd]
    requires EntryCopied(s, r', p, c, n, fails)
    requires Duplicated(s, p, n, fails) ==> r'.procs[c].table[n] == File(|r.files|)
    ensures FilesCopied(s, r', p, c, n + 1, fails)
  {
    forall fd: nat | fd < n + 1 ensures EntryCopied(s, r', p, c, fd, fails) {
      if fd < n { assert EntryCopied(s, r, p, c, fd, fails); }
    }
    forall fd: nat, g: nat | fd < g < n + 1 && Duplicated(s, p, fd, fails) && Duplicated(s, p, g, fails)
      ensures r'.procs[c].table[fd].File? && r'.procs[c].table[g].File?
      ensures r'.procs[c].table[fd].handle < r'.procs[c].table[g].handle
    {
      assert EntryCopied(s, r, p, c, fd, fails);
    }
  }

  lemma {:induction false} TableCopied(s: State, p: nat, c: nat, n: nat, fails: set<nat>) returns (r: State)
    requires Alive(s, p) && Alive(s, c) && p != c && n <= MAX_FD && s.procs[c] == NewProcess()
    requires InodesOk(s.files, s.inodes) && FilesOk(s, map[])
    ensures ForkTable(s, p, c, n, fails) == Ok(r) && CopyOk(s, r, p, c, n) && FilesCopied(s, r, p, c, n, fails)
    decreases n
  {
    if n == 0 {
      CopyStart(s, p, c);
      r := s;
    } else {
      var r0 := TableCopied(s, p, c, n - 1, fails);
      r := EntryStep(s, r0, p, c, n - 1, fails, n);
    }
  }

  /** fork gives the child its parent's descriptors: the same console entries and empty ones, and for each file that
      could be duplicated a handle of its own, a different one for each, on the same inode with the same denial. */
  lemma ForkDoes(s: State, p: nat, fails: set<nat>)
    requires Inv(s) && Alive(s, p) && s.procs[p].idx != 1536
    ensures Fork(s, p, fails).Ok?
    ensures var r, c := Fork(s, p, fails).state, |s.procs|; var q, t := s.procs[p], s.procs[p].table;
      && |r.procs| == c + 1 && r.procs[..c] == s.procs && s.files <= r.files && r.lost == s.lost
      && var q' := r.procs[c];
      && |q'.table| == 1536 && q'.idx == q.idx && q'.stdin == q.stdin && q'.stdout == q.stdout && q'.running.None?
      && q'.table[0] == t[0] && q'.table[1] == t[1]
      && (forall fd: nat :: 2 <= fd < 1536 && !t[fd].File? ==> q'.table[fd] == t[fd])
      && (forall fd: nat :: 2 <= fd < 1536 && t[fd].File? && fd in fails ==> q'.table[fd] == Null)
      && (forall fd: nat :: 2 <= fd < 1536 && t[fd].File? && fd !in fails ==>
            && t[fd].handle < |s.files| && s.files[t[fd].handle].Some?
            && q'.table[fd].File? && |s.files| <= q'.table[fd].handle < |r.files|
            && r.files[q'.table[fd].handle] == Some(Handle(s.files[t[fd].handle].value.inode, 1, s.files[t[fd].handle].value.deny)))
      && (forall fd: nat, g: nat :: 2 <= fd < g < 1536 && t[fd].File? && t[g].File? && fd !in fails && g !in fails ==>
            q'.table[fd] != q'.table[g])
  {
    ForkOkIff(s, p, fails);
    NewbornOk(s);
    var c := |s.procs|;
    var a := s.(procs := s.procs + [NewProcess()]);
    var b := TableCopied(a, p, c, MAX_FD, fails);
    var r := Fork(s, p, fails).state;
    assert r.procs[c].table == b.procs[c].table && r.files == b.files && a.files == s.files;
    assert a.procs[p] == s.procs[p];
    ForkEntries(a, b, p, c, fails);
  }

  /** `FilesCopied` of the whole table, entry by entry. */
  lemma ForkEntries(a: State, b: State, p: nat, c: nat, fails: set<nat>)
    requires FilesCopied(a, b, p, c, MAX_FD, fails)
    ensures var t, t' := a.procs[p].table, b.procs[c].table;
      && t'[0] == t[0] && t'[1] == t[1]
      && (forall fd: nat :: 2 <= fd < 1536 && !t[fd].File? ==> t'[fd] == t[fd])
      && (forall fd: nat :: 2 <= fd < 1536 && t[fd].File? && fd in fails ==> t'[fd] == Null)
      && (forall fd: nat :: 2 <= fd < 1536 && t[fd].File? && fd !in fails ==>
            && t[fd].handle < |a.files| && a.files[t[fd].handle].Some?
            && t'[fd].File? && |a.files| <= t'[fd].handle < |b.files|
            && b.files[t'[fd].handle] == Some(Handle(a.files[t[fd].handle].value.inode, 1, a.files[t[fd].handle].value.deny)))
      && (forall fd: nat, g: nat :: 2 <= fd < g < 1536 && t[fd].File? && t[g].File? && fd !in fails && g !in fails ==> t'[fd] != t'[g])
  {
    var t, t' := a.procs[p].table, b.procs[c].table;
    assert EntryCopied(a, b, p, c, 0, fails) && EntryCopied(a, b, p, c, 1, fails);
    forall fd: nat | 2 <= fd < 1536
      ensures !t[fd].File? ==> t'[fd] == t[fd]
      ensures t[fd].File? && fd in fails ==> t'[fd] == Null
      ensures t[fd].File? && fd !in fails ==>
        && t[fd].handle < |a.files| && a.files[t[fd].handle].Some?
        && t'[fd].File? && |a.files| <= t'[fd].handle < |b.files|
        && b.files[t'[fd].handle] == Some(Handle(a.files[t[fd].handle].value.inode, 1, a.files[t[fd].handle].value.deny))
    {
      assert EntryCopied(a, b, p, c, fd, fails);
    }
    forall fd: nat, g: nat | 2 <= fd < g < 1536 && t[fd].File? && t[g].File? && fd !in fails && g !in fails
      ensures t'[fd] != t'[g]
    {
      assert Duplicated(a, p, fd, fails) && Duplicated(a, p, g, fails);
    }
  }

  /** A parent whose open ran off the table makes no copies: the child, which is about to exit, has the console only. */
  lemma ForkGivesUp(s: State, p: nat, fails: set<nat>)
    requires Inv(s) && Alive(s, p) && s.procs[p].idx == 1536
    ensures Fork(s, p, fails).Ok?
    ensures var r, c := Fork(s, p, fails).state, |s.procs|;
      && |r.procs| == c + 1 && r.procs[..c] == s.procs && r.files == s.files && r.inodes == s.inodes
      && |r.procs[c].table| == 1536 && r.procs[c].table[0] == Stdin && r.procs[c].table[1] == Stdout
      && forall fd :: 2 <= fd < 1536 ==> r.procs[c].table[fd] == Null
  {
  }
}
