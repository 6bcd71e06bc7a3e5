/**
 File descriptors and the reference counts behind them: the descriptor tables of
 pintos-kaist/userprog/syscall.c and pintos-kaist/userprog/process.c, the file handles of
 pintos-kaist/filesys/file.c and the open and deny counts of pintos-kaist/filesys/inode.c.

 A `Fault` is a use of a freed handle or inode, a write outside the table, or a failed assertion.
 */
module Descriptors {
  import opened Wrappers

  const MAX_FD: nat := 1536

  datatype Entry = Null | Stdin | Stdout | File(handle: nat)

  datatype Handle = Handle(inode: nat, dup: int, deny: bool)

  datatype Inode = Inode(openCnt: int, denyCnt: int)

  /** A process that has exited has an empty table. */
  datatype Process = Process(table: seq<Entry>, idx: nat, stdin: int, stdout: int, running: Option<nat>)

  /** Handles are numbered in the order they were made; a closed one is `None`.  An in-memory inode
      is known by its sector.  `lost` holds the handles whose last pointer was dropped unclosed. */
  datatype State = State(procs: seq<Process>, files: seq<Option<Handle>>, inodes: map<nat, Inode>, lost: set<nat>)

  datatype Outcome = Ok(state: State) | Fault {
    predicate IsFailure() { Fault? }
    function PropagateFailure(): Outcome requires Fault? { Fault }
    function Extract(): State requires Ok? { state }
  }

  // ---------------------------------------------------------------- handles and inodes

  predicate Open(s: State, k: nat) { k < |s.files| && s.files[k].Some? }

  function PutFile(s: State, k: nat, f: Option<Handle>): State
    requires k < |s.files|
  {
    s.(files := s.files[k := f])
  }

  /** `inode_open` or `inode_reopen`, then `file_open`. */
  function NewHandle(s: State, i: nat): State {
    var n := if i in s.inodes then s.inodes[i].(openCnt := s.inodes[i].openCnt + 1) else Inode(1, 0);
    s.(inodes := s.inodes[i := n], files := s.files + [Some(Handle(i, 1, false))])
  }

  function InodeClose(s: State, i: nat): Outcome {
    if i !in s.inodes then Fault
    else
      var n := s.inodes[i].openCnt - 1;
      if n == 0 then Ok(s.(inodes := s.inodes - {i}))
      else Ok(s.(inodes := s.inodes[i := s.inodes[i].(openCnt := n)]))
  }

  function DenyWrite(s: State, k: nat): Outcome {
    if !Open(s, k) then Fault
    else
      var f := s.files[k].value;
      if f.deny then Ok(s)
      else if f.inode !in s.inodes then Fault
      else
        var n := s.inodes[f.inode];
        if n.denyCnt + 1 > n.openCnt then Fault
        else Ok(PutFile(s, k, Some(f.(deny := true))).(inodes := s.inodes[f.inode := n.(denyCnt := n.denyCnt + 1)]))
  }

  function AllowWrite(s: State, k: nat): Outcome {
    if !Open(s, k) then Fault
    else
      var f := s.files[k].value;
      if !f.deny then Ok(s)
      else if f.inode !in s.inodes then Fault
      else
        var n := s.inodes[f.inode];
        if n.denyCnt <= 0 || n.denyCnt > n.openCnt then Fault
        else Ok(PutFile(s, k, Some(f.(deny := false))).(inodes := s.inodes[f.inode := n.(denyCnt := n.denyCnt - 1)]))
  }

  function FileClose(s: State, k: nat): Outcome {
    var a :- AllowWrite(s, k);
    if !Open(a, k) then Fault
    else
      var b :- InodeClose(a, a.files[k].value.inode);
      if k >= |b.files| then Fault else Ok(PutFile(b, k, None))
  }

  // ---------------------------------------------------------------- the system calls

  predicate Alive(s: State, p: nat) { p < |s.procs| && |s.procs[p].table| == MAX_FD }

  function PutProc(s: State, p: nat, q: Process): State
    requires p < |s.procs|
  {
    s.(procs := s.procs[p := q])
  }

  function SetEntry(s: State, p: nat, fd: nat, e: Entry): State
    requires p < |s.procs| && fd < |s.procs[p].table|
  {
    PutProc(s, p, s.procs[p].(table := s.procs[p].table[fd := e]))
  }

  function FirstFree(table: seq<Entry>, from: nat): nat
    decreases |table| - from
  {
    if from >= |table| || table[from] == Null then from else FirstFree(table, from + 1)
  }

  function SysOpen(s: State, p: nat, i: nat): State
    requires Alive(s, p)
  {
    var k := |s.files|;
    var r := NewHandle(s, i);
    var fd := FirstFree(s.procs[p].table, s.procs[p].idx);
    var q := s.procs[p].(idx := fd);
    if fd >= MAX_FD then PutProc(r, p, q).(lost := s.lost + {k})
    else SetEntry(PutProc(r, p, q), p, fd, File(k))
  }

  function SysClose(s: State, p: nat, fd: int): Outcome
    requires Alive(s, p)
  {
    if fd < 0 || fd >= MAX_FD then Ok(s)
    else
      var q := s.procs[p];
      match q.table[fd]
      case Null => Ok(s)
      case Stdin => Ok(SetEntry(PutProc(s, p, q.(stdin := q.stdin - 1)), p, fd, Null))
      case Stdout => Ok(SetEntry(PutProc(s, p, q.(stdout := q.stdout - 1)), p, fd, Null))
      case File(k) =>
        var r :- Release(s, k);
        if !Alive(r, p) then Fault else Ok(SetEntry(r, p, fd, Null))
  }

  /** One reference fewer; the handle is closed when that was the last. */
  function Release(s: State, k: nat): Outcome {
    if !Open(s, k) then Fault
    else
      var f := s.files[k].value;
      var a := PutFile(s, k, Some(f.(dup := f.dup - 1)));
      if f.dup - 1 == 0 then FileClose(a, k) else Ok(a)
  }

  function Retain(s: State, p: nat, e: Entry): Outcome
    requires Alive(s, p)
  {
    var q := s.procs[p];
    match e
    case Null => Ok(s)
    case Stdin => Ok(PutProc(s, p, q.(stdin := q.stdin + 1)))
    case Stdout => Ok(PutProc(s, p, q.(stdout := q.stdout + 1)))
    case File(k) =>
      if !Open(s, k) then Fault
      else Ok(PutFile(s, k, Some(s.files[k].value.(dup := s.files[k].value.dup + 1))))
  }

  function SysDup2(s: State, p: nat, oldfd: int, newfd: int): Outcome
    requires Alive(s, p)
  {
    if oldfd < 0 || oldfd >= MAX_FD || s.procs[p].table[oldfd] == Null || oldfd == newfd then Ok(s)
    else
      var a :- Retain(s, p, s.procs[p].table[oldfd]);
      if newfd < 0 || newfd >= MAX_FD || !Alive(a, p) then Fault
      else
        var b :- SysClose(a, p, newfd);
        if !Alive(b, p) then Fault else Ok(SetEntry(b, p, newfd, b.procs[p].table[oldfd]))
  }

  /** `process_exec` opens the new executable and denies writes to it.  It drops the handle of the
      previous one, if any, without closing it. */
  function Exec(s: State, p: nat, i: Option<nat>): Outcome
    requires Alive(s, p)
  {
    var dropped := s.procs[p].running;
    var lost := if dropped.Some? then s.lost + {dropped.value} else s.lost;
    match i
    case None => Ok(PutProc(s, p, s.procs[p].(running := None)).(lost := lost))
    case Some(i) =>
      var k := |s.files|;
      var a := NewHandle(s, i);
      DenyWrite(PutProc(a, p, s.procs[p].(running := Some(k))).(lost := lost), k)
  }

  /** `file_duplicate`, which leaves nothing behind when there is no memory. */
  function Duplicate(s: State, k: nat, fails: bool): (Outcome, Entry) {
    if !Open(s, k) || s.files[k].value.inode !in s.inodes then (Fault, Null)
    else if fails then (Ok(s), Null)
    else
      var n := |s.files|;
      var a := NewHandle(s, s.files[k].value.inode);
      (if s.files[k].value.deny then DenyWrite(a, n) else Ok(a), File(n))
  }

  function NewProcess(): Process {
    Process([Stdin, Stdout] + seq(MAX_FD - 2, _ => Null), 2, 1, 1, None)
  }

  /** Copying one descriptor into the child `c`; the first two are copied as they are. */
  function ForkEntry(s: State, p: nat, c: nat, fd: nat, fails: set<nat>): Outcome
    requires Alive(s, p) && Alive(s, c) && fd < MAX_FD
  {
    var e := s.procs[p].table[fd];
    if fd <= 1 then Ok(SetEntry(s, c, fd, e))
    else
      match e
      case Null => Ok(s)
      case Stdin => Ok(SetEntry(s, c, fd, e))
      case Stdout => Ok(SetEntry(s, c, fd, e))
      case File(k) =>
        var (r, e') := Duplicate(s, k, fd in fails);
        if r.Fault? || !Alive(r.state, c) then Fault else Ok(SetEntry(r.state, c, fd, e'))
  }

  function ForkTable(s: State, p: nat, c: nat, n: nat, fails: set<nat>): Outcome
    requires Alive(s, p) && Alive(s, c) && n <= MAX_FD
    decreases n
  {
    if n == 0 then Ok(s)
    else
      var r :- ForkTable(s, p, c, n - 1, fails);
      if !Alive(r, p) || !Alive(r, c) then Fault else ForkEntry(r, p, c, n - 1, fails)
  }

  function Fork(s: State, p: nat, fails: set<nat>): Outcome
    requires Alive(s, p)
  {
    var c := |s.procs|;
    var a := s.(procs := s.procs + [NewProcess()]);
    if s.procs[p].idx == MAX_FD then Ok(a)
    else
      var b :- ForkTable(a, p, c, MAX_FD, fails);
      if !Alive(b, c) then Fault
      else
        var q := s.procs[p];
        Ok(PutProc(b, c, b.procs[c].(idx := q.idx, stdin := q.stdin, stdout := q.stdout)))
  }

  function CloseTable(s: State, p: nat, n: nat): Outcome
    requires Alive(s, p) && n <= MAX_FD
    decreases n
  {
    if n == 0 then Ok(s)
    else
      var r :- CloseTable(s, p, n - 1);
      if !Alive(r, p) then Fault else SysClose(r, p, n - 1)
  }

  function CloseRunning(s: State, p: nat): Outcome
    requires Alive(s, p)
  {
    match s.procs[p].running
    case None => Ok(s)
    case Some(k) =>
      var a :- AllowWrite(s, k);
      FileClose(a, k)
  }

  function Exit(s: State, p: nat): Outcome
    requires Alive(s, p)
  {
    var a :- CloseTable(s, p, MAX_FD);
    if !Alive(a, p) then Fault
    else
      var b :- CloseRunning(a, p);
      if !Alive(b, p) then Fault else Ok(PutProc(b, p, Process([], 0, 0, 0, None)))
  }

  // ---------------------------------------------------------------- what the counts mean

  function Bit(b: bool): nat { if b then 1 else 0 }

  /** The descriptors of one process that name `k`, and its executable if it is `k`. */
  function Named(q: Process, k: nat): nat { multiset(q.table)[File(k)] + Bit(q.running == Some(k)) }

  /** The references to handle `k` in all processes. */
  function Refs(procs: seq<Process>, k: nat): nat {
    if procs == [] then 0 else Refs(procs[..|procs| - 1], k) + Named(procs[|procs| - 1], k)
  }

  /** Those of them that are some process's executable. */
  function Runs(procs: seq<Process>, k: nat): nat {
    if procs == [] then 0 else Runs(procs[..|procs| - 1], k) + Bit(procs[|procs| - 1].running == Some(k))
  }

  /** The open handles on inode `i`, and those of them that deny writes. */
  function Handles(files: seq<Option<Handle>>, i: nat): nat {
    if files == [] then 0
    else
      var f := files[|files| - 1];
      Handles(files[..|files| - 1], i) + Bit(f.Some? && f.value.inode == i)
  }

  function Denials(files: seq<Option<Handle>>, i: nat): nat {
    if files == [] then 0
    else
      var f := files[|files| - 1];
      Denials(files[..|files| - 1], i) + Bit(f.Some? && f.value.inode == i && f.value.deny)
  }

  lemma {:induction false} RefsUpdate(procs: seq<Process>, p: nat, q: Process, k: nat)
    requires p < |procs|
    ensures Refs(procs[p := q], k) == Refs(procs, k) - Named(procs[p], k) + Named(q, k)
    ensures Runs(procs[p := q], k) == Runs(procs, k) - Bit(procs[p].running == Some(k)) + Bit(q.running == Some(k))
    decreases |procs|
  {
    var n := |procs| - 1;
    if p == n {
      assert procs[p := q][..n] == procs[..n];
    } else {
      assert procs[p := q][..n] == procs[..n][p := q];
      RefsUpdate(procs[..n], p, q, k);
    }
  }

  lemma {:induction false} RefsAtLeast(procs: seq<Process>, p: nat, k: nat)
    requires p < |procs|
    ensures Refs(procs, k) >= Named(procs[p], k)
    ensures Refs(procs, k) >= multiset(procs[p].table)[File(k)] + Runs(procs, k)
    ensures Runs(procs, k) >= Bit(procs[p].running == Some(k))
    decreases |procs|
  {
    RefsCoverRuns(procs[..|procs| - 1], k);
    if p < |procs| - 1 { RefsAtLeast(procs[..|procs| - 1], p, k); }
  }

  lemma {:induction false} RefsCoverRuns(procs: seq<Process>, k: nat)
    ensures Refs(procs, k) >= Runs(procs, k)
    decreases |procs|
  {
    if procs != [] { RefsCoverRuns(procs[..|procs| - 1], k); }
  }

  lemma {:induction false} CountsUpdate(files: seq<Option<Handle>>, k: nat, f: Option<Handle>, i: nat)
    requires k < |files|
    ensures Handles(files[k := f], i) ==
      Handles(files, i) - Bit(files[k].Some? && files[k].value.inode == i) + Bit(f.Some? && f.value.inode == i)
    ensures Denials(files[k := f], i) ==
      Denials(files, i) - Bit(files[k].Some? && files[k].value.inode == i && files[k].value.deny)
        + Bit(f.Some? && f.value.inode == i && f.value.deny)
    decreases |files|
  {
    var n := |files| - 1;
    if k == n {
      assert files[k := f][..n] == files[..n];
    } else {
      assert files[k := f][..n] == files[..n][k := f];
      CountsUpdate(files[..n], k, f, i);
    }
  }

  lemma CountsAppend(files: seq<Option<Handle>>, f: Option<Handle>, i: nat)
    ensures Handles(files + [f], i) == Handles(files, i) + Bit(f.Some? && f.value.inode == i)
    ensures Denials(files + [f], i) == Denials(files, i) + Bit(f.Some? && f.value.inode == i && f.value.deny)
  {
    assert (files + [f])[..|files|] == files;
  }

  lemma {:induction false} DenialsAtMost(files: seq<Option<Handle>>, i: nat)
    ensures Denials(files, i) <= Handles(files, i)
    decreases |files|
  {
    if files != [] { DenialsAtMost(files[..|files| - 1], i); }
  }

  lemma {:induction false} HandlesAtLeast(files: seq<Option<Handle>>, k: nat, i: nat)
    requires k < |files| && files[k].Some? && files[k].value.inode == i
    ensures Handles(files, i) >= 1 && (files[k].value.deny ==> Denials(files, i) >= 1)
    decreases |files|
  {
    if k < |files| - 1 { HandlesAtLeast(files[..|files| - 1], k, i); }
  }

  // ---------------------------------------------------------------- the invariant

  /** An inode is in memory exactly while it has a handle, and its two counts are exact. */
  predicate InodeOk(files: seq<Option<Handle>>, inodes: map<nat, Inode>, i: nat) {
    if i in inodes
    then inodes[i].openCnt == Handles(files, i) > 0 && inodes[i].denyCnt == Denials(files, i)
    else Handles(files, i) == 0 && Denials(files, i) == 0
  }

  ghost predicate InodesOk(files: seq<Option<Handle>>, inodes: map<nat, Inode>) {
    forall i: nat {:trigger InodeOk(files, inodes, i)} :: InodeOk(files, inodes, i)
  }

  /** How far a handle's count may be ahead of its references: nothing, between system calls. */
  function Slack(m: map<nat, int>, k: nat): int { if k in m then m[k] else 0 }

  predicate FileOk(s: State, k: nat, m: map<nat, int>) {
    (if Open(s, k)
     then s.files[k].value.dup == Refs(s.procs, k) + Bit(k in s.lost) + Slack(m, k) && s.files[k].value.dup > 0
     else Refs(s.procs, k) == 0 && k !in s.lost && Slack(m, k) == 0) &&
    (Runs(s.procs, k) > 0 ==> Unshared(s, k) && Slack(m, k) == 0)
  }

  /** The handle of an executable has no other name. */
  predicate Unshared(s: State, k: nat) { Refs(s.procs, k) == 1 && Runs(s.procs, k) == 1 && k !in s.lost }

  ghost predicate FilesOk(s: State, m: map<nat, int>) {
    forall k: nat {:trigger FileOk(s, k, m)} :: FileOk(s, k, m)
  }

  predicate ProcOk(q: Process) {
    if q.table == [] then q.running == None
    else
      |q.table| == MAX_FD && q.idx <= MAX_FD &&
      q.stdin == multiset(q.table)[Stdin] && q.stdout == multiset(q.table)[Stdout]
  }

  ghost predicate ProcsOk(procs: seq<Process>) {
    forall p: nat {:trigger ProcOk(procs[p])} :: p < |procs| ==> ProcOk(procs[p])
  }

  ghost predicate Inv(s: State) {
    InodesOk(s.files, s.inodes) && FilesOk(s, map[]) && ProcsOk(s.procs)
  }

  // ---------------------------------------------------------------- inode counts

  lemma NewHandleInodes(s: State, i: nat)
    requires InodesOk(s.files, s.inodes)
    ensures InodesOk(NewHandle(s, i).files, NewHandle(s, i).inodes)
  {
    var r := NewHandle(s, i);
    forall j: nat ensures InodeOk(r.files, r.inodes, j) {
      assert InodeOk(s.files, s.inodes, j);
      CountsAppend(s.files, Some(Handle(i, 1, false)), j);
    }
  }

  lemma DupInodes(files: seq<Option<Handle>>, inodes: map<nat, Inode>, k: nat, dup: int)
    requires InodesOk(files, inodes) && k < |files| && files[k].Some?
    ensures InodesOk(files[k := Some(files[k].value.(dup := dup))], inodes)
  {
    var files' := files[k := Some(files[k].value.(dup := dup))];
    forall j: nat ensures InodeOk(files', inodes, j) {
      assert InodeOk(files, inodes, j);
      CountsUpdate(files, k, files'[k], j);
    }
  }

  lemma OpenInode(files: seq<Option<Handle>>, inodes: map<nat, Inode>, k: nat)
    requires InodesOk(files, inodes) && k < |files| && files[k].Some?
    ensures files[k].value.inode in inodes
    ensures var n := inodes[files[k].value.inode];
      n.denyCnt <= n.openCnt && 1 <= n.openCnt && (files[k].value.deny ==> 1 <= n.denyCnt)
  {
    var i := files[k].value.inode;
    assert InodeOk(files, inodes, i);
    HandlesAtLeast(files, k, i);
    DenialsAtMost(files, i);
  }

  lemma DenyWriteOk(s: State, k: nat)
    requires InodesOk(s.files, s.inodes) && Open(s, k)
    ensures DenyWrite(s, k).Ok?
    ensures var r := DenyWrite(s, k).state;
      InodesOk(r.files, r.inodes) && r == PutFile(s, k, Some(s.files[k].value.(deny := true))).(inodes := r.inodes)
  {
    OpenInode(s.files, s.inodes, k);
    var f := s.files[k].value;
    var files' := s.files[k := Some(f.(deny := true))];
    CountsUpdate(s.files, k, files'[k], f.inode);
    DenialsAtMost(files', f.inode);
    assert InodeOk(s.files, s.inodes, f.inode);
    if !f.deny {
      var r := DenyWrite(s, k).state;
      forall j: nat ensures InodeOk(r.files, r.inodes, j) {
        assert InodeOk(s.files, s.inodes, j);
        CountsUpdate(s.files, k, files'[k], j);
      }
    } else {
      assert files' == s.files;
    }
  }

  lemma AllowWriteOk(s: State, k: nat)
    requires InodesOk(s.files, s.inodes) && Open(s, k)
    ensures AllowWrite(s, k).Ok?
    ensures var r := AllowWrite(s, k).state;
      InodesOk(r.files, r.inodes) && r == PutFile(s, k, Some(s.files[k].value.(deny := false))).(inodes := r.inodes)
  {
    OpenInode(s.files, s.inodes, k);
    var f := s.files[k].value;
    var files' := s.files[k := Some(f.(deny := false))];
    if f.deny {
      var r := AllowWrite(s, k).state;
      forall j: nat ensures InodeOk(r.files, r.inodes, j) {
        assert InodeOk(s.files, s.inodes, j);
        CountsUpdate(s.files, k, files'[k], j);
      }
    } else {
      assert files' == s.files;
    }
  }

  /** Closing takes back the handle's denial and its share of the inode. */
  lemma FileCloseOk(s: State, k: nat)
    requires InodesOk(s.files, s.inodes) && Open(s, k)
    ensures FileClose(s, k).Ok?
    ensures var r := FileClose(s, k).state;
      InodesOk(r.files, r.inodes) && r == PutFile(s, k, None).(inodes := r.inodes)
  {
    AllowWriteOk(s, k);
    var a := AllowWrite(s, k).state;
    OpenInode(a.files, a.inodes, k);
    var r := FileClose(s, k).state;
    assert r.files == a.files[k := None] == s.files[k := None];
    forall j: nat ensures InodeOk(r.files, r.inodes, j) {
      assert InodeOk(a.files, a.inodes, j);
      CountsUpdate(a.files, k, None, j);
      DenialsAtMost(a.files[k := None], j);
    }
  }

  // ---------------------------------------------------------------- descriptors

  lemma ReleaseOk(s: State, k: nat)
    requires InodesOk(s.files, s.inodes) && Open(s, k)
    ensures Release(s, k).Ok?
    ensures var r := Release(s, k).state; var f := s.files[k].value;
      InodesOk(r.files, r.inodes) &&
      r == PutFile(s, k, if f.dup == 1 then None else Some(f.(dup := f.dup - 1))).(inodes := r.inodes)
  {
    var f := s.files[k].value;
    DupInodes(s.files, s.inodes, k, f.dup - 1);
    if f.dup == 1 {
      var a := PutFile(s, k, Some(f.(dup := 0)));
      FileCloseOk(a, k);
      assert a.files[k := None] == s.files[k := None];
    }
  }

  lemma EntryCounts(table: seq<Entry>, fd: nat, e: Entry, x: Entry)
    requires fd < |table|
    ensures multiset(table[fd := e])[x] == multiset(table)[x] - Bit(table[fd] == x) + Bit(e == x)
    ensures table[fd] == x ==> multiset(table)[x] >= 1
  {
    assert table[fd] in multiset(table);
    assert multiset(table[fd := e]) == multiset(table) - multiset{table[fd]} + multiset{e};
  }

  function Emptied(q: Process, fd: nat): Process
    requires fd < |q.table|
  {
    q.(table := q.table[fd := Null],
       stdin := q.stdin - Bit(q.table[fd] == Stdin), stdout := q.stdout - Bit(q.table[fd] == Stdout))
  }

  function Dropped(files: seq<Option<Handle>>, e: Entry): seq<Option<Handle>> {
    if e.File? && e.handle < |files| && files[e.handle].Some?
    then
      var f := files[e.handle].value;
      files[e.handle := if f.dup == 1 then None else Some(f.(dup := f.dup - 1))]
    else files
  }

  lemma SysCloseValue(s: State, p: nat, fd: nat)
    requires InodesOk(s.files, s.inodes) && Alive(s, p) && fd < MAX_FD
    requires s.procs[p].table[fd].File? ==> Open(s, s.procs[p].table[fd].handle)
    ensures SysClose(s, p, fd).Ok?
    ensures var r := SysClose(s, p, fd).state;
      InodesOk(r.files, r.inodes) &&
      r == State(s.procs[p := Emptied(s.procs[p], fd)], Dropped(s.files, s.procs[p].table[fd]), r.inodes, s.lost)
  {
    var q := s.procs[p];
    assert q.table == q.table[fd := q.table[fd]];
    assert s.procs == s.procs[p := q];
    if q.table[fd].File? { ReleaseOk(s, q.table[fd].handle); }
  }

  lemma CloseKeepsCounts(s: State, r: State, p: nat, fd: nat, m: map<nat, int>, k: nat)
    requires Alive(s, p) && fd < MAX_FD && FileOk(s, k, m) && Slack(m, k) >= 0
    requires r.procs == s.procs[p := Emptied(s.procs[p], fd)] && r.files == Dropped(s.files, s.procs[p].table[fd])
    requires r.lost == s.lost
    ensures FileOk(r, k, m)
  {
    var q := s.procs[p];
    EntryCounts(q.table, fd, Null, File(k));
    RefsUpdate(s.procs, p, Emptied(q, fd), k);
    RefsAtLeast(s.procs, p, k);
  }

  lemma EmptiedOk(q: Process, fd: nat)
    requires fd < |q.table| && ProcOk(q)
    ensures ProcOk(Emptied(q, fd))
  {
    EntryCounts(q.table, fd, Null, Stdin);
    EntryCounts(q.table, fd, Null, Stdout);
  }

  lemma PutProcsOk(procs: seq<Process>, p: nat, q: Process)
    requires ProcsOk(procs) && p < |procs| && ProcOk(q)
    ensures ProcsOk(procs[p := q])
  {
    var after := procs[p := q];
    forall j: nat | j < |after| ensures ProcOk(after[j]) {
      if j != p { assert ProcOk(procs[j]); }
    }
  }

  lemma NamedOpen(s: State, p: nat, fd: nat, m: map<nat, int>)
    requires FilesOk(s, m) && Alive(s, p) && fd < MAX_FD && s.procs[p].table[fd].File?
    ensures Open(s, s.procs[p].table[fd].handle)
    ensures Refs(s.procs, s.procs[p].table[fd].handle) >= 1
  {
    var e := s.procs[p].table[fd];
    assert FileOk(s, e.handle, m);
    EntryCounts(s.procs[p].table, fd, e, e);
    RefsAtLeast(s.procs, p, e.handle);
  }

  /** Closing one descriptor, whatever it names: never a fault, the counts stay exact, and the handle
      goes exactly when its last reference does. */
  lemma SysCloseOk(s: State, p: nat, fd: int, m: map<nat, int>)
    requires InodesOk(s.files, s.inodes) && FilesOk(s, m) && ProcsOk(s.procs) && Alive(s, p)
    requires forall k :: Slack(m, k) >= 0
    ensures SysClose(s, p, fd).Ok?
    ensures var r := SysClose(s, p, fd).state;
      InodesOk(r.files, r.inodes) && FilesOk(r, m) && ProcsOk(r.procs)
    ensures Closed(s, SysClose(s, p, fd).state, p, fd)
  {
    if 0 <= fd < MAX_FD {
      var q := s.procs[p];
      if q.table[fd].File? { NamedOpen(s, p, fd, m); }
      SysCloseValue(s, p, fd);
      var r := SysClose(s, p, fd).state;
      assert ProcOk(q);
      EmptiedOk(q, fd);
      PutProcsOk(s.procs, p, Emptied(q, fd));
      forall k: nat ensures FileOk(r, k, m) {
        assert FileOk(s, k, m);
        CloseKeepsCounts(s, r, p, fd, m, k);
      }
    } else {
      assert s.procs == s.procs[p := s.procs[p]];
    }
  }

  /** What a close changes in the caller's table, and what it leaves alone everywhere else. */
  ghost predicate Closed(s: State, r: State, p: nat, fd: int) {
    Alive(s, p) && Alive(r, p) && |r.procs| == |s.procs| && r.lost == s.lost && |r.files| == |s.files| &&
    r.procs == s.procs[p := r.procs[p]] && r.procs[p].running == s.procs[p].running && r.procs[p].idx == s.procs[p].idx &&
    r.procs[p].table == if 0 <= fd < MAX_FD then s.procs[p].table[fd := Null] else s.procs[p].table
  }

  lemma {:induction false} FirstFreeOk(table: seq<Entry>, from: nat)
    requires from <= |table|
    ensures from <= FirstFree(table, from) <= |table|
    ensures forall j :: from <= j < FirstFree(table, from) ==> table[j] != Null
    ensures FirstFree(table, from) < |table| ==> table[FirstFree(table, from)] == Null
    decreases |table| - from
  {
    if from < |table| && table[from] != Null { FirstFreeOk(table, from + 1); }
  }

  /** Opening keeps every count.  The new handle gets a descriptor exactly when some entry from `idx`
      on is empty; otherwise it is lost. */
  lemma SysOpenOk(s: State, p: nat, i: nat)
    requires Inv(s) && Alive(s, p)
    ensures Inv(SysOpen(s, p, i))
    ensures var r := SysOpen(s, p, i); var q := s.procs[p];
      (r.lost == s.lost <==> exists fd :: q.idx <= fd < MAX_FD && q.table[fd] == Null) &&
      (r.lost != s.lost ==> r.lost == s.lost + {|s.files|})
  {
    var r := SysOpen(s, p, i);
    var q := s.procs[p];
    assert ProcOk(q) && FileOk(s, |s.files|, map[]);
    FirstFreeOk(q.table, q.idx);
    NewHandleInodes(s, i);
    forall j: nat ensures FileOk(r, j, map[]) {
      assert FileOk(s, j, map[]);
      OpenKeepsCounts(s, p, i, j);
    }
    assert r.procs == s.procs[p := Opened(q, |s.files|)];
    OpenedProcOk(q, |s.files|);
    PutProcsOk(s.procs, p, Opened(q, |s.files|));
  }

  /** The caller's descriptors after an open of handle `k`. */
  function Opened(q: Process, k: nat): Process {
    var fd := FirstFree(q.table, q.idx);
    if fd >= |q.table| then q.(idx := fd) else q.(idx := fd, table := q.table[fd := File(k)])
  }

  lemma OpenedProcOk(q: Process, k: nat)
    requires ProcOk(q) && |q.table| == MAX_FD
    ensures ProcOk(Opened(q, k))
  {
    var fd := FirstFree(q.table, q.idx);
    FirstFreeOk(q.table, q.idx);
    if fd < MAX_FD {
      EntryCounts(q.table, fd, File(k), Stdin);
      EntryCounts(q.table, fd, File(k), Stdout);
    }
  }

  lemma OpenKeepsCounts(s: State, p: nat, i: nat, j: nat)
    requires Alive(s, p) && s.procs[p].idx <= MAX_FD && FileOk(s, j, map[]) && FileOk(s, |s.files|, map[])
    ensures FileOk(SysOpen(s, p, i), j, map[])
  {
    var q, k := s.procs[p], |s.files|;
    var r := SysOpen(s, p, i);
    var fd := FirstFree(q.table, q.idx);
    FirstFreeOk(q.table, q.idx);
    assert r.procs == s.procs[p := Opened(q, k)];
    RefsCoverRuns(s.procs, k);
    RefsUpdate(s.procs, p, Opened(q, k), j);
    if fd < MAX_FD { EntryCounts(q.table, fd, File(k), File(j)); }
  }

  /** The handle a retained entry names may for a moment be one ahead of its references. */
  function Ahead(e: Entry): map<nat, int> { if e.File? then map[e.handle := 1] else map[] }

  function Counted(q: Process, e: Entry): Process {
    q.(stdin := q.stdin + Bit(e == Stdin), stdout := q.stdout + Bit(e == Stdout))
  }

  lemma RetainFiles(s: State, p: nat, fd: nat)
    requires Inv(s) && Alive(s, p) && fd < MAX_FD
    ensures var e := s.procs[p].table[fd];
      Retain(s, p, e).Ok? && var a := Retain(s, p, e).state;
      InodesOk(a.files, a.inodes) && FilesOk(a, Ahead(e)) && |a.files| == |s.files| && a.lost == s.lost &&
      a.procs == s.procs[p := Counted(s.procs[p], e)]
  {
    var q := s.procs[p];
    var e := q.table[fd];
    if e.File? {
      NamedOpen(s, p, fd, map[]);
      EntryCounts(q.table, fd, e, e);
      DupInodes(s.files, s.inodes, e.handle, s.files[e.handle].value.dup + 1);
    }
    var a := Retain(s, p, e).state;
    assert s.procs == s.procs[p := q];
    var m := Ahead(e);
    forall k: nat ensures FileOk(a, k, m) {
      assert FileOk(s, k, map[]);
      RetainKeeps(s, a, p, e, k);
    }
  }

  lemma RetainKeeps(s: State, a: State, p: nat, e: Entry, k: nat)
    requires p < |s.procs| && FileOk(s, k, map[]) && a.lost == s.lost
    requires a.procs == s.procs[p := Counted(s.procs[p], e)]
    requires e.File? ==> Open(s, e.handle) && multiset(s.procs[p].table)[e] >= 1
    requires a.files == if e.File? then s.files[e.handle := Some(s.files[e.handle].value.(dup := s.files[e.handle].value.dup + 1))] else s.files
    ensures FileOk(a, k, Ahead(e))
  {
    RefsUpdate(s.procs, p, Counted(s.procs[p], e), k);
    RefsAtLeast(s.procs, p, k);
  }

  /** dup2 faults exactly when it has something to copy and the target is outside the table; otherwise
      it makes `newfd` name what `oldfd` names and every count stays exact. */
  lemma SysDup2Ok(s: State, p: nat, oldfd: int, newfd: int)
    requires Inv(s) && Alive(s, p)
    ensures var copies := 0 <= oldfd < MAX_FD && s.procs[p].table[oldfd] != Null && oldfd != newfd;
      (SysDup2(s, p, oldfd, newfd).Ok? <==> (copies ==> 0 <= newfd < MAX_FD)) &&
      (SysDup2(s, p, oldfd, newfd).Ok? ==>
         var r := SysDup2(s, p, oldfd, newfd).state;
         Inv(r) && Alive(r, p) && r.lost == s.lost &&
         r.procs[p].table ==
           (if copies then s.procs[p].table[newfd := s.procs[p].table[oldfd]] else s.procs[p].table))
  {
    var copies := 0 <= oldfd < MAX_FD && s.procs[p].table[oldfd] != Null && oldfd != newfd;
    if copies {
      RetainFiles(s, p, oldfd);
      if 0 <= newfd < MAX_FD { Dup2Copies(s, p, oldfd, newfd); }
    }
  }

  lemma Dup2Copies(s: State, p: nat, oldfd: nat, newfd: nat)
    requires Inv(s) && Alive(s, p) && oldfd < MAX_FD && newfd < MAX_FD && oldfd != newfd
    requires s.procs[p].table[oldfd] != Null
    ensures SysDup2(s, p, oldfd, newfd).Ok?
    ensures var r := SysDup2(s, p, oldfd, newfd).state;
      Inv(r) && Alive(r, p) && r.lost == s.lost &&
      r.procs[p].table == s.procs[p].table[newfd := s.procs[p].table[oldfd]]
  {
    RetainFiles(s, p, oldfd);
    var q := s.procs[p];
    var e := q.table[oldfd];
    var a := Retain(s, p, e).state;
    assert a.procs[p] == Counted(q, e);
    if q.table[newfd].File? { NamedOpen(a, p, newfd, Ahead(e)); }
    SysCloseValue(a, p, newfd);
    var b := SysClose(a, p, newfd).state;
    var q' := Emptied(Counted(q, e), newfd);
    var r := SysDup2(s, p, oldfd, newfd).state;
    var q'' := q'.(table := q.table[newfd := e]);
    assert r.procs[p].table == q''.table;
    assert r == b.(procs := s.procs[p := q'']);
    assert q'.table[newfd := e] == q''.table;
    assert b.procs[p := q''] == r.procs;
    var m := Ahead(e);
    forall k: nat ensures FileOk(r, k, map[]) {
      assert FileOk(a, k, m);
      CloseKeepsCounts(a, b, p, newfd, m, k);
      NameKeepsCounts(b, r, p, newfd, e, k);
    }
    assert ProcOk(q);
    Dup2Consoles(q, oldfd, newfd, q'');
    PutProcsOk(s.procs, p, q'');
  }

  /** Naming a handle once more uses up its lead. */
  lemma NameKeepsCounts(b: State, r: State, p: nat, fd: nat, e: Entry, k: nat)
    requires p < |b.procs| && fd < |b.procs[p].table| && b.procs[p].table[fd] == Null && FileOk(b, k, Ahead(e))
    requires r == b.(procs := b.procs[p := b.procs[p].(table := b.procs[p].table[fd := e])])
    ensures FileOk(r, k, map[])
  {
    EntryCounts(b.procs[p].table, fd, e, File(k));
    RefsUpdate(b.procs, p, r.procs[p], k);
  }

  lemma Dup2Consoles(q: Process, oldfd: nat, newfd: nat, r: Process)
    requires ProcOk(q) && oldfd < |q.table| && newfd < |q.table|
    requires r == Emptied(Counted(q, q.table[oldfd]), newfd).(table := q.table[newfd := q.table[oldfd]])
    ensures ProcOk(r)
  {
    EntryCounts(q.table, newfd, q.table[oldfd], Stdin);
    EntryCounts(q.table, newfd, q.table[oldfd], Stdout);
  }

  // ---------------------------------------------------------------- exec and exit

  lemma ExecKeeps(s: State, r: State, p: nat, k: nat)
    requires p < |s.procs| && FileOk(s, k, map[]) && FileOk(s, |s.files|, map[])
    requires var q := s.procs[p]; var fd := |s.files|;
      (r.procs == s.procs[p := q.(running := None)] && r.files == s.files) ||
      (exists i :: r.procs == s.procs[p := q.(running := Some(fd))] && r.files == s.files + [Some(Handle(i, 1, true))])
    requires r.lost == if s.procs[p].running.Some? then s.lost + {s.procs[p].running.value} else s.lost
    ensures FileOk(r, k, map[])
  {
    RefsUpdate(s.procs, p, r.procs[p], k);
    RefsAtLeast(s.procs, p, k);
  }

  lemma ExecOk(s: State, p: nat, i: Option<nat>)
    requires Inv(s) && Alive(s, p)
    ensures Exec(s, p, i).Ok? && Inv(Exec(s, p, i).state)
    ensures Exec(s, p, i).state.lost == s.lost <==> s.procs[p].running.None?
  {
    var q := s.procs[p];
    var k := |s.files|;
    assert ProcOk(q);
    assert FileOk(s, k, map[]);
    if i.Some? {
      NewHandleInodes(s, i.value);
      var a := PutProc(NewHandle(s, i.value), p, q.(running := Some(k)));
      DenyWriteOk(a.(lost := Exec(s, p, None).state.lost), k);
      assert a.files[k := Some(Handle(i.value, 1, true))] == s.files + [Some(Handle(i.value, 1, true))];
    }
    var r := Exec(s, p, i).state;
    forall j: nat ensures FileOk(r, j, map[]) {
      assert FileOk(s, j, map[]);
      ExecKeeps(s, r, p, j);
    }
    PutProcsOk(s.procs, p, r.procs[p]);
    if q.running.Some? {
      assert FileOk(s, q.running.value, map[]);
      RefsAtLeast(s.procs, p, q.running.value);
    }
  }

  ghost predicate ClosedUpTo(s: State, r: State, p: nat, n: nat) {
    Alive(s, p) && Alive(r, p) && r.procs == s.procs[p := r.procs[p]] && r.lost == s.lost &&
    r.procs[p].running == s.procs[p].running &&
    (forall j {:trigger r.procs[p].table[j]} :: 0 <= j < MAX_FD && j < n ==> r.procs[p].table[j] == Null)
  }

  lemma {:induction false} CloseTableOk(s: State, p: nat, n: nat) returns (r: State)
    requires Inv(s) && Alive(s, p) && n <= MAX_FD
    ensures CloseTable(s, p, n) == Ok(r) && Inv(r) && ClosedUpTo(s, r, p, n)
    decreases n
  {
    if n == 0 {
      assert s.procs == s.procs[p := s.procs[p]];
      r := s;
    } else {
      var r0 := CloseTableOk(s, p, n - 1);
      CloseTableNext(s, r0, p, n - 1);
      SysCloseOk(r0, p, n - 1, map[]);
      r := SysClose(r0, p, n - 1).state;
    }
  }

  lemma CloseTableNext(s: State, r: State, p: nat, n: nat)
    requires Alive(s, p) && n < MAX_FD && CloseTable(s, p, n) == Ok(r) && Alive(r, p)
    ensures CloseTable(s, p, n + 1) == SysClose(r, p, n)
  {
  }

  lemma NoNames(table: seq<Entry>, e: Entry)
    requires e != Null && forall j :: 0 <= j < |table| ==> table[j] == Null
    ensures multiset(table)[e] == 0
  {
    assert e !in table;
  }

  /** Exit closes every descriptor and the executable: the process names nothing any more, and each
      handle it was the last to name is closed. */
  lemma ExitOk(s: State, p: nat)
    requires Inv(s) && Alive(s, p)
    ensures Exit(s, p).Ok? && Inv(Exit(s, p).state)
    ensures Exit(s, p).state.lost == s.lost
    ensures forall k :: Named(Exit(s, p).state.procs[p], k) == 0
  {
    var a := CloseTableOk(s, p, MAX_FD);
    var q := a.procs[p];
    RunningClosed(a, p);
    var b := CloseRunning(a, p).state;
    var gone := Process([], 0, 0, 0, None);
    var r := PutProc(b, p, gone);
    assert Exit(s, p) == Ok(r);
    forall j: nat ensures FileOk(r, j, map[]) {
      assert FileOk(a, j, map[]);
      NoNames(q.table, File(j));
      GoneKeeps(a, r, p, j);
    }
    PutProcsOk(a.procs, p, gone);
  }

  lemma RunningClosed(a: State, p: nat)
    requires Inv(a) && Alive(a, p)
    ensures CloseRunning(a, p).Ok?
    ensures var b := CloseRunning(a, p).state; var q := a.procs[p];
      InodesOk(b.files, b.inodes) &&
      b == a.(files := if q.running.Some? && q.running.value < |a.files| then a.files[q.running.value := None] else a.files, inodes := b.inodes)
  {
    var q := a.procs[p];
    if q.running.Some? {
      var k := q.running.value;
      assert FileOk(a, k, map[]);
      RefsAtLeast(a.procs, p, k);
      AllowWriteOk(a, k);
      FileCloseOk(AllowWrite(a, k).state, k);
      assert AllowWrite(a, k).state.files[k := None] == a.files[k := None];
    }
  }

  lemma GoneKeeps(a: State, r: State, p: nat, j: nat)
    requires p < |a.procs| && FileOk(a, j, map[]) && multiset(a.procs[p].table)[File(j)] == 0
    requires r.procs == a.procs[p := Process([], 0, 0, 0, None)] && r.lost == a.lost && |r.files| == |a.files|
    requires j < |a.files| ==> r.files[j] == if a.procs[p].running == Some(j) then None else a.files[j]
    ensures FileOk(r, j, map[])
  {
    RefsUpdate(a.procs, p, r.procs[p], j);
    RefsAtLeast(a.procs, p, j);
  }

  // ---------------------------------------------------------------- fork

  /** Each raw copy of a handle's name puts its count one behind. */
  function Behind(m: map<nat, int>, e: Entry): map<nat, int> {
    if e.File? then m[e.handle := Slack(m, e.handle) - 1] else m
  }

  function BehindUpTo(table: seq<Entry>, n: nat): map<nat, int>
    requires |table| >= 2
  {
    if n == 0 then map[] else if n == 1 then Behind(map[], table[0]) else Behind(Behind(map[], table[0]), table[1])
  }

  /** How far the copying loop has come: only the child's table changed, its first `n` entries show
      the console where the parent's do, and the rest are as they were. */
  ghost predicate Copied(s: State, r: State, p: nat, c: nat, n: nat) {
    Alive(s, p) && Alive(s, c) && Alive(r, p) && Alive(r, c) && p != c &&
    r.procs == s.procs[c := s.procs[c].(table := r.procs[c].table)] && r.lost == s.lost && s.files <= r.files &&
    (n > 0 ==> r.procs[c].table[0] == s.procs[p].table[0]) &&
    (forall j {:trigger r.procs[c].table[j]} :: 0 <= j < MAX_FD ==>
       if j < n
       then (r.procs[c].table[j] == Stdin <==> s.procs[p].table[j] == Stdin) &&
            (r.procs[c].table[j] == Stdout <==> s.procs[p].table[j] == Stdout)
       else r.procs[c].table[j] == s.procs[c].table[j])
  }

  lemma EntryKeeps(s: State, r: State, c: nat, fd: nat, e: Entry, m: map<nat, int>, k: nat)
    requires Alive(s, c) && fd < MAX_FD && r.procs == SetEntry(s, c, fd, e).procs && r.lost == s.lost
    requires !s.procs[c].table[fd].File? && FileOk(s, k, m) && FileOk(s, |s.files|, m)
    requires e == File(|s.files|) ==>
      exists i, deny :: r.files == s.files + [Some(Handle(i, 1, deny))]
    requires e != File(|s.files|) ==> r.files == s.files
    requires e.File? && e.handle != |s.files| ==> Open(s, e.handle) && (e.handle == k ==> Runs(s.procs, k) == 0)
    ensures FileOk(r, k, if e == File(|s.files|) then m else Behind(m, e))
  {
    RefsUpdate(s.procs, c, r.procs[c], k);
    EntryCounts(s.procs[c].table, fd, e, File(k));
    RefsCoverRuns(s.procs, k);
  }

  lemma RawCopyOk(s: State, c: nat, fd: nat, e: Entry, m: map<nat, int>)
    requires Alive(s, c) && fd < MAX_FD && FilesOk(s, m) && !s.procs[c].table[fd].File?
    requires e.File? ==> Open(s, e.handle) && Runs(s.procs, e.handle) == 0
    ensures FilesOk(SetEntry(s, c, fd, e), Behind(m, e))
  {
    var r := SetEntry(s, c, fd, e);
    var m' := Behind(m, e);
    forall k: nat ensures FileOk(r, k, m') {
      assert FileOk(s, k, m) && FileOk(s, |s.files|, m);
      EntryKeeps(s, r, c, fd, e, m, k);
    }
  }

  lemma DuplicateOk(s: State, c: nat, fd: nat, k: nat, fails: bool, m: map<nat, int>)
    requires Alive(s, c) && fd < MAX_FD && FilesOk(s, m) && InodesOk(s.files, s.inodes)
    requires s.procs[c].table[fd] == Null && Open(s, k)
    ensures var (o, e) := Duplicate(s, k, fails);
      o.Ok? && o.state.procs == s.procs && o.state.lost == s.lost && s.files <= o.state.files && e != Stdin && e != Stdout &&
      InodesOk(o.state.files, o.state.inodes) && FilesOk(SetEntry(o.state, c, fd, e), m)
  {
    var (o, e) := Duplicate(s, k, fails);
    var i := s.files[k].value.inode;
    OpenInode(s.files, s.inodes, k);
    if fails {
      RawCopyOk(s, c, fd, Null, m);
    } else {
      var n := |s.files|;
      NewHandleInodes(s, i);
      var a := NewHandle(s, i);
      DenyWriteOk(a, n);
      var deny := s.files[k].value.deny;
      var r := SetEntry(o.state, c, fd, e);
      assert r.files == s.files + [Some(Handle(i, 1, deny))] by {
        assert a.files[n := Some(Handle(i, 1, true))] == s.files + [Some(Handle(i, 1, true))];
      }
      forall j: nat ensures FileOk(r, j, m) {
        assert FileOk(s, j, m) && FileOk(s, n, m);
        EntryKeeps(s, r, c, fd, e, m, j);
      }
    }
  }

  /** An entry of the parent's table names an open handle, and one that is no executable's. */
  lemma ParentEntry(s: State, p: nat, fd: nat, m: map<nat, int>)
    requires FilesOk(s, m) && Alive(s, p) && fd < MAX_FD && s.procs[p].table[fd].File?
    ensures Open(s, s.procs[p].table[fd].handle) && Runs(s.procs, s.procs[p].table[fd].handle) == 0
  {
    var e := s.procs[p].table[fd];
    assert FileOk(s, e.handle, m);
    EntryCounts(s.procs[p].table, fd, e, e);
    RefsAtLeast(s.procs, p, e.handle);
  }

  /** The counts while the loop runs, and how far it has come. */
  ghost predicate CopyOk(s: State, r: State, p: nat, c: nat, n: nat) {
    Copied(s, r, p, c, n) && InodesOk(r.files, r.inodes) && FilesOk(r, BehindUpTo(s.procs[p].table, n))
  }

  lemma ForkEntryOk(s: State, r: State, p: nat, c: nat, n: nat, fails: set<nat>) returns (r': State)
    requires CopyOk(s, r, p, c, n) && n < MAX_FD && s.procs[c] == NewProcess()
    ensures ForkEntry(r, p, c, n, fails) == Ok(r') && CopyOk(s, r', p, c, n + 1)
  {
    var m := BehindUpTo(s.procs[p].table, n);
    var e := r.procs[p].table[n];
    if e.File? { ParentEntry(r, p, n, m); }
    assert r.procs[c].table[n] == Null || (n <= 1 && !r.procs[c].table[n].File?);
    if n > 1 && e.File? {
      DuplicateOk(r, c, n, e.handle, n in fails, m);
      var (o, e') := Duplicate(r, e.handle, n in fails);
      r' := SetEntry(o.state, c, n, e');
      CopiedNext(s, r, r', p, c, n, e');
    } else {
      RawCopyOk(r, c, n, e, m);
      RawEntry(r, p, c, n, fails);
      r' := SetEntry(r, c, n, e);
      CopiedNext(s, r, r', p, c, n, e);
    }
  }

  lemma RawEntry(r: State, p: nat, c: nat, n: nat, fails: set<nat>)
    requires Alive(r, p) && Alive(r, c) && n < MAX_FD
    requires n <= 1 || (!r.procs[p].table[n].File? && r.procs[c].table[n] == Null)
    ensures ForkEntry(r, p, c, n, fails) == Ok(SetEntry(r, c, n, r.procs[p].table[n]))
  {
    if n > 1 && r.procs[p].table[n] == Null {
      assert r.procs[c].table[n := Null] == r.procs[c].table;
      assert r.procs[c := r.procs[c]] == r.procs;
    }
  }

  lemma CopiedNext(s: State, r: State, r': State, p: nat, c: nat, n: nat, e: Entry)
    requires Copied(s, r, p, c, n) && n < MAX_FD && r'.lost == r.lost && r.files <= r'.files
    requires r'.procs == r.procs[c := r.procs[c].(table := r.procs[c].table[n := e])]
    requires (e == Stdin <==> s.procs[p].table[n] == Stdin) && (e == Stdout <==> s.procs[p].table[n] == Stdout)
    requires n == 0 ==> e == s.procs[p].table[0]
    ensures Copied(s, r', p, c, n + 1)
  {
  }

  lemma {:induction false} ForkTableOk(s: State, p: nat, c: nat, n: nat, fails: set<nat>) returns (r: State)
    requires Alive(s, p) && Alive(s, c) && p != c && n <= MAX_FD && s.procs[c] == NewProcess()
    requires InodesOk(s.files, s.inodes) && FilesOk(s, map[])
    ensures ForkTable(s, p, c, n, fails) == Ok(r) && CopyOk(s, r, p, c, n)
    decreases n
  {
    if n == 0 {
      CopyStart(s, p, c);
      r := s;
    } else {
      var r0 := ForkTableOk(s, p, c, n - 1, fails);
      ForkTableNext(s, r0, p, c, n - 1, fails);
      r := ForkEntryOk(s, r0, p, c, n - 1, fails);
    }
  }

  lemma CopyStart(s: State, p: nat, c: nat)
    requires Alive(s, p) && Alive(s, c) && p != c && InodesOk(s.files, s.inodes) && FilesOk(s, map[])
    ensures CopyOk(s, s, p, c, 0)
  {
    assert s.procs == s.procs[c := s.procs[c]];
  }

  lemma ForkTableNext(s: State, r: State, p: nat, c: nat, n: nat, fails: set<nat>)
    requires Alive(s, p) && Alive(s, c) && n < MAX_FD
    requires ForkTable(s, p, c, n, fails) == Ok(r) && Alive(r, p) && Alive(r, c)
    ensures ForkTable(s, p, c, n + 1, fails) == ForkEntry(r, p, c, n, fails)
  {
  }

  lemma {:induction false} SameConsole(a: seq<Entry>, b: seq<Entry>, e: Entry)
    requires |a| == |b| && forall j :: 0 <= j < |a| ==> (a[j] == e <==> b[j] == e)
    ensures multiset(a)[e] == multiset(b)[e]
    decreases |a|
  {
    if a != [] {
      var n := |a| - 1;
      SameConsole(a[..n], b[..n], e);
      assert a == a[..n] + [a[n]] && b == b[..n] + [b[n]];
    }
  }

  lemma NewProcessOk()
    ensures ProcOk(NewProcess()) && forall k :: Named(NewProcess(), k) == 0
  {
    var rest := seq(MAX_FD - 2, _ => Null);
    NoNames(rest, Stdin);
    NoNames(rest, Stdout);
    assert multiset(NewProcess().table) == multiset{Stdin, Stdout} + multiset(rest);
    forall k: nat ensures Named(NewProcess(), k) == 0 { NoNames(rest, File(k)); }
  }

  lemma NewbornOk(s: State)
    requires Inv(s)
    ensures Inv(s.(procs := s.procs + [NewProcess()]))
  {
    NewProcessOk();
    var a := s.(procs := s.procs + [NewProcess()]);
    assert a.procs[..|s.procs|] == s.procs;
    forall k: nat ensures FileOk(a, k, map[]) {
      assert FileOk(s, k, map[]) && Named(NewProcess(), k) == 0;
    }
    forall j: nat | j < |a.procs| ensures ProcOk(a.procs[j]) {
      if j < |s.procs| { assert ProcOk(s.procs[j]); }
    }
  }

  /** fork never faults, and leaves all inode and console counts exact.  It leaves the handle counts
      exact if and only if neither of the first two descriptors names a file. */
  lemma ForkOkIff(s: State, p: nat, fails: set<nat>)
    requires Inv(s) && Alive(s, p)
    ensures Fork(s, p, fails).Ok?
    ensures var r := Fork(s, p, fails).state; var t := s.procs[p].table;
      (Inv(r) <==> s.procs[p].idx == MAX_FD || !(t[0].File? || t[1].File?)) &&
      Alive(r, |s.procs|) && r.lost == s.lost && |r.procs| == |s.procs| + 1 && r.procs[..|s.procs|] == s.procs
  {
    NewbornOk(s);
    var c := |s.procs|;
    var a := s.(procs := s.procs + [NewProcess()]);
    var q := s.procs[p];
    if q.idx != MAX_FD {
      var _ := ForkTableOk(a, p, c, MAX_FD, fails);
      ForkCounts(s, p, fails);
    }
  }

  lemma ForkCounts(s: State, p: nat, fails: set<nat>)
    requires Inv(s) && Alive(s, p) && s.procs[p].idx != MAX_FD && Fork(s, p, fails).Ok?
    requires Inv(s.(procs := s.procs + [NewProcess()]))
    ensures var r := Fork(s, p, fails).state; var t := s.procs[p].table;
      (Inv(r) <==> !(t[0].File? || t[1].File?)) && FilesOk(r, BehindUpTo(t, 2)) &&
      InodesOk(r.files, r.inodes) && ProcsOk(r.procs) &&
      Alive(r, |s.procs|) && r.lost == s.lost && |r.procs| == |s.procs| + 1 && r.procs[..|s.procs|] == s.procs &&
      r.procs[|s.procs|].table[0] == t[0] && s.files <= r.files
  {
    var c := |s.procs|;
    var a := s.(procs := s.procs + [NewProcess()]);
    var q := s.procs[p];
    var m := BehindUpTo(q.table, 2);
    var b := ForkTableOk(a, p, c, MAX_FD, fails);
    var r := Fork(s, p, fails).state;
    assert r.procs == b.procs[c := r.procs[c]];
    SameConsole(b.procs[c].table, q.table, Stdin);
    SameConsole(b.procs[c].table, q.table, Stdout);
    assert ProcOk(q);
    PutProcsOk(a.procs, c, r.procs[c]);
    assert r.procs == a.procs[c := r.procs[c]];
    forall k: nat ensures FileOk(r, k, m) {
      assert FileOk(b, k, m);
      RefsUpdate(b.procs, c, r.procs[c], k);
    }
    var t := q.table;
    if t[0].File? { SlackShows(r, t[0].handle, m); }
    if t[1].File? { SlackShows(r, t[1].handle, m); }
  }

  lemma SlackShows(s: State, k: nat, m: map<nat, int>)
    requires FilesOk(s, m) && Slack(m, k) != 0
    ensures !FilesOk(s, map[])
  {
    assert FileOk(s, k, m);
    assert !FileOk(s, k, map[]);
  }

  /** What goes wrong otherwise: with a file on descriptor 0 whose count is 1, parent and child share the
      handle uncounted; whoever closes second reaches freed memory. */
  lemma ForkedStdinDangles(s: State, p: nat, k: nat, fails: set<nat>)
    requires Inv(s) && Alive(s, p) && s.procs[p].idx != MAX_FD && s.procs[p].table[0] == File(k)
    requires Open(s, k) && s.files[k].value.dup == 1
    ensures Fork(s, p, fails).Ok?
    ensures var c := |s.procs|; var r := Fork(s, p, fails).state;
      Alive(r, p) && Alive(r, c) && SysClose(r, p, 0).Ok? && Alive(SysClose(r, p, 0).state, c) &&
      SysClose(SysClose(r, p, 0).state, c, 0).Fault?
  {
    ForkOkIff(s, p, fails);
    NewbornOk(s);
    ForkCounts(s, p, fails);
    var r := Fork(s, p, fails).state;
    assert r.procs[p] == r.procs[..|s.procs|][p] == s.procs[p];
    assert r.files[k] == s.files[k];
    SysCloseValue(r, p, 0);
    var t := SysClose(r, p, 0).state;
    assert t.procs[|s.procs|] == r.procs[|s.procs|];
    assert !Open(t, k);
  }

  // ---------------------------------------------------------------- whole runs

  datatype Call =
    | OpenCall(inode: nat)
    | CloseCall(fd: int)
    | Dup2Call(oldfd: int, newfd: int)
    | ForkCall(fails: set<nat>)
    | ExecCall(image: Option<nat>)
    | ExitCall

  datatype Event = Event(pid: nat, call: Call)

  function Step(s: State, e: Event): Outcome {
    if !Alive(s, e.pid) then Ok(s)
    else
      match e.call
      case OpenCall(i) => Ok(SysOpen(s, e.pid, i))
      case CloseCall(fd) => SysClose(s, e.pid, fd)
      case Dup2Call(a, b) => SysDup2(s, e.pid, a, b)
      case ForkCall(fails) => Fork(s, e.pid, fails)
      case ExecCall(i) => Exec(s, e.pid, i)
      case ExitCall => Exit(s, e.pid)
  }

  function Run(s: State, es: seq<Event>): Outcome
    decreases |es|
  {
    if es == [] then Ok(s)
    else
      var r :- Step(s, es[0]);
      Run(r, es[1..])
  }

  /** The two calls that can go wrong: a dup2 that copies must stay inside the table, and a fork that copies must not
      find a file on the first two descriptors. */
  predicate Sane(s: State, e: Event) {
    Alive(s, e.pid) ==>
      var q := s.procs[e.pid];
      match e.call
      case Dup2Call(a, b) => 0 <= a < MAX_FD && q.table[a] != Null && a != b ==> 0 <= b < MAX_FD
      case ForkCall(_) => q.idx == MAX_FD || !(q.table[0].File? || q.table[1].File?)
      case _ => true
  }

  predicate Legal(s: State, es: seq<Event>)
    decreases |es|
  {
    es == [] || (Sane(s, es[0]) && (Step(s, es[0]).Ok? ==> Legal(Step(s, es[0]).state, es[1..])))
  }

  /** No event of the run faults, and all counts are exact after each of them. */
  ghost predicate ExactThroughout(s: State, es: seq<Event>)
    decreases |es|
  {
    es == [] || (Step(s, es[0]).Ok? && Inv(Step(s, es[0]).state) && ExactThroughout(Step(s, es[0]).state, es[1..]))
  }

  lemma StepOkIff(s: State, e: Event)
    requires Inv(s)
    ensures Step(s, e).Ok? && Inv(Step(s, e).state) <==> Sane(s, e)
  {
    if Alive(s, e.pid) {
      match e.call {
        case OpenCall(i) => SysOpenOk(s, e.pid, i);
        case CloseCall(fd) => SysCloseOk(s, e.pid, fd, map[]);
        case Dup2Call(a, b) => SysDup2Ok(s, e.pid, a, b);
        case ForkCall(fails) => ForkOkIff(s, e.pid, fails);
        case ExecCall(i) => ExecOk(s, e.pid, i);
        case ExitCall => ExitOk(s, e.pid);
      }
    }
  }

  function Boot(): State { State([NewProcess()], [], map[], {}) }

  lemma BootOk()
    ensures Inv(Boot())
  {
    NewProcessOk();
    var s := Boot();
    assert s.procs[..0] == [];
    forall k: nat ensures FileOk(s, k, map[]) {
      assert Named(NewProcess(), k) == 0;
      RefsCoverRuns(s.procs, k);
    }
  }

  /** All the counts are exact throughout a run exactly when every dup2 that copies stays inside the table and no
      fork copies a file on the first two descriptors: each open handle's count is the number of descriptors that
      name it, plus one if it is an executable's or was lost; it is closed exactly when nothing names
      it; and each inode's counts are its handles and its denying handles. */
  lemma {:induction false} RunsKeepCounts(s: State, es: seq<Event>)
    requires Inv(s)
    ensures ExactThroughout(s, es) <==> Legal(s, es)
    ensures Legal(s, es) ==> Run(s, es).Ok? && Inv(Run(s, es).state)
    decreases |es|
  {
    if es != [] {
      StepOkIff(s, es[0]);
      if Sane(s, es[0]) { RunsKeepCounts(Step(s, es[0]).state, es[1..]); }
    }
  }

  /** A handle is open exactly while something refers to it. */
  lemma OpenIffReferenced(es: seq<Event>, k: nat, i: nat)
    requires Legal(Boot(), es)
    ensures Run(Boot(), es).Ok?
    ensures var r := Run(Boot(), es).state;
      (Open(r, k) <==> Refs(r.procs, k) > 0 || k in r.lost) &&
      (Open(r, k) ==> r.files[k].value.dup == Refs(r.procs, k) + Bit(k in r.lost)) &&
      (i in r.inodes <==> Handles(r.files, i) > 0) &&
      (i in r.inodes ==> r.inodes[i] == Inode(Handles(r.files, i), Denials(r.files, i)))
  {
    BootOk();
    RunsKeepCounts(Boot(), es);
    var r := Run(Boot(), es).state;
    assert FileOk(r, k, map[]) && InodeOk(r.files, r.inodes, i);
  }

  lemma RunThree(s: State, a: State, b: State, x: Event, y: Event, z: Event)
    requires Step(s, x) == Ok(a) && Step(a, y) == Ok(b)
    ensures Run(s, [x, y, z]) == Step(b, z)
  {
    var es, fs, gs := [x, y, z], [y, z], [z];
    assert es[1..] == fs && fs[1..] == gs && gs[1..] == [];
    assert Run(s, es) == Run(a, fs) == Run(b, gs);
    if Step(b, z).Ok? { assert Run(Step(b, z).state, gs[1..]) == Step(b, z); }
  }

  lemma OpensThird(s: State, i: nat) returns (r: State)
    requires Inv(s) && Alive(s, 0) && |s.files| == 0 && s.procs[0].idx == 2 && s.procs[0].table[2] == Null
    ensures SysOpen(s, 0, i) == r && Inv(r) && Alive(r, 0) && |r.procs| == |s.procs|
    ensures r.procs[0].idx == 2 && r.procs[0].table == s.procs[0].table[2 := File(0)] && r.files == [Some(Handle(i, 1, false))]
  {
    r := SysOpen(s, 0, i);
    SysOpenOk(s, 0, i);
  }

  lemma MovedToZero(s: State, i: nat) returns (r: State)
    requires Inv(s) && Alive(s, 0) && s.procs[0].table[2] == File(0) && s.procs[0].table[0] == Stdin
    requires |s.files| == 1 && s.files[0] == Some(Handle(i, 1, false))
    ensures SysDup2(s, 0, 2, 0) == Ok(r) && Inv(r) && Alive(r, 0) && |r.procs| == |s.procs| && r.procs[0].idx == s.procs[0].idx
    ensures r.procs[0].table == s.procs[0].table[0 := File(0)] && r.files == [Some(Handle(i, 2, false))]
  {
    SysDup2Ok(s, 0, 2, 0);
    RetainFiles(s, 0, 2);
    var a := Retain(s, 0, File(0)).state;
    SysCloseValue(a, 0, 0);
    r := SysDup2(s, 0, 2, 0).state;
  }

  lemma ClosesThird(s: State, i: nat) returns (r: State)
    requires Inv(s) && Alive(s, 0) && s.procs[0].table[2] == File(0) && s.procs[0].table[0] == File(0)
    requires s.files == [Some(Handle(i, 2, false))]
    ensures SysClose(s, 0, 2) == Ok(r) && Inv(r) && Alive(r, 0) && |r.procs| == |s.procs| && r.procs[0].idx == s.procs[0].idx
    ensures r.procs[0].table[0] == File(0) && r.files == [Some(Handle(i, 1, false))]
  {
    SysCloseOk(s, 0, 2, map[]);
    SysCloseValue(s, 0, 2);
    r := SysClose(s, 0, 2).state;
  }

  lemma FaultsAfter(s: State, x: Event, y: Event, z: Event)
    requires Inv(s) && Alive(s, 0) && |s.procs| == 1 && s.procs[0].idx != MAX_FD && s.procs[0].table[0] == File(0)
    requires Open(s, 0) && s.files[0].value.dup == 1
    requires x == Event(0, ForkCall({})) && y == Event(0, CloseCall(0)) && z == Event(1, CloseCall(0))
    ensures Run(s, [x, y, z]).Fault?
  {
    ForkedStdinDangles(s, 0, 0, {});
    var r := Fork(s, 0, {}).state;
    RunThree(s, r, SysClose(r, 0, 0).state, x, y, z);
  }

  /** A program gets there in three calls: it opens a file, puts it on descriptor 0 and closes the first
      descriptor.  Forking and closing 0 twice then ends in a fault. */
  lemma DanglingRun(i: nat) returns (open: seq<Event>, close: seq<Event>, s: State)
    ensures open == [Event(0, OpenCall(i)), Event(0, Dup2Call(2, 0)), Event(0, CloseCall(2))]
    ensures close == [Event(0, ForkCall({})), Event(0, CloseCall(0)), Event(1, CloseCall(0))]
    ensures Run(Boot(), open) == Ok(s) && Inv(s) && Run(s, close).Fault?
  {
    var b := Boot();
    BootOk();
    assert b.procs[0].table[2] == Null && b.procs[0].table[0] == Stdin;
    var s1 := OpensThird(b, i);
    var s2 := MovedToZero(s1, i);
    s := ClosesThird(s2, i);
    var x, y, z := Event(0, OpenCall(i)), Event(0, Dup2Call(2, 0)), Event(0, CloseCall(2));
    open := [x, y, z];
    RunThree(b, s1, s2, x, y, z);
    var x', y', z' := Event(0, ForkCall({})), Event(0, CloseCall(0)), Event(1, CloseCall(0));
    close := [x', y', z'];
    FaultsAfter(s, x', y', z');
  }

  // ---------------------------------------------------------------- the code

  class Kernel {
    var procs: seq<Process>
    var files: seq<Option<Handle>>
    var inodes: map<nat, Inode>
    ghost var lost: set<nat>

    ghost function Value(): State reads this { State(procs, files, inodes, lost) }

    /** The loop reads an entry before it tests the index, so with no empty entry it reads one past the table: `beyond`
        says whether what lies there is nonzero.  The answer does not depend on it. */
    method FindUnusedFd(p: nat, k: nat, beyond: bool) returns (fd: int, overread: bool)
      requires p < |procs| && |procs[p].table| == MAX_FD && procs[p].idx <= MAX_FD
      modifies this`procs
      ensures var q := old(procs[p]); var free := FirstFree(q.table, q.idx);
        if free < MAX_FD
        then fd == free && procs == old(procs)[p := q.(idx := free, table := q.table[free := File(k)])]
        else fd == -1 && procs == old(procs)[p := q.(idx := free)]
      ensures overread <==> FirstFree(old(procs[p]).table, old(procs[p]).idx) == MAX_FD
    {
      var q := procs[p];
      FirstFreeOk(q.table, q.idx);
      var i := q.idx;
      overread := false;
      while true
        invariant q.idx <= i <= MAX_FD && FirstFree(q.table, i) == FirstFree(q.table, q.idx) && !overread
        decreases MAX_FD - i
      {
        var nonzero;
        if i < MAX_FD {
          nonzero := q.table[i] != Null;
        } else {
          nonzero, overread := beyond, true;
        }
        if !(nonzero && i < MAX_FD) {
          break;
        }
        i := i + 1;
      }
      q := q.(idx := i);
      fd := -1;
      if i < MAX_FD {
        q := q.(table := q.table[i := File(k)]);
        fd := i;
      }
      procs := procs[p := q];
    }

    method Open(p: nat, i: nat, beyond: bool) returns (fd: int)
      requires Inv(Value()) && Alive(Value(), p)
      modifies this
      ensures Value() == SysOpen(old(Value()), p, i) && Inv(Value())
      ensures fd == -1 <==> lost != old(lost)
      ensures fd != -1 ==> 0 <= fd < MAX_FD && Alive(Value(), p) && procs[p].table[fd] == File(|old(files)|)
    {
      SysOpenOk(Value(), p, i);
      assert ProcOk(procs[p]) && FileOk(Value(), |files|, map[]);
      FirstFreeOk(procs[p].table, procs[p].idx);
      var k := |files|;
      if i in inodes {
        inodes := inodes[i := inodes[i].(openCnt := inodes[i].openCnt + 1)];
      } else {
        inodes := inodes[i := Inode(1, 0)];
      }
      files := files + [Some(Handle(i, 1, false))];
      var overread;
      fd, overread := FindUnusedFd(p, k, beyond);
      if fd == -1 { lost := lost + {k}; }
    }

    method CloseFile(k: nat)
      requires InodesOk(files, inodes) && k < |files| && files[k].Some?
      modifies this`files, this`inodes
      ensures FileClose(old(Value()), k) == Ok(Value())
    {
      FileCloseOk(Value(), k);
      AllowWriteOk(Value(), k);
      OpenInode(files, inodes, k);
      var i := files[k].value.inode;
      if files[k].value.deny {
        inodes := inodes[i := inodes[i].(denyCnt := inodes[i].denyCnt - 1)];
        files := files[k := Some(files[k].value.(deny := false))];
      }
      var n := inodes[i].openCnt - 1;
      if n == 0 {
        inodes := inodes - {i};
      } else {
        inodes := inodes[i := inodes[i].(openCnt := n)];
      }
      files := files[k := None];
    }

    method Close(p: nat, fd: int)
      requires Alive(Value(), p) && InodesOk(files, inodes) && SysClose(Value(), p, fd).Ok?
      modifies this`procs, this`files, this`inodes
      ensures SysClose(old(Value()), p, fd) == Ok(Value())
    {
      if fd < 0 || fd >= MAX_FD { return; }
      var e := procs[p].table[fd];
      if e == Stdin {
        procs := procs[p := procs[p].(stdin := procs[p].stdin - 1)];
      }
      if e == Stdout {
        procs := procs[p := procs[p].(stdout := procs[p].stdout - 1)];
      }
      assert e == Null ==> procs[p := procs[p].(table := procs[p].table[fd := Null])] == procs by {
        assert e == Null ==> procs[p].table[fd := Null] == procs[p].table;
      }
      if e.File? {
        var f := files[e.handle].value;
        DupInodes(files, inodes, e.handle, f.dup - 1);
        files := files[e.handle := Some(f.(dup := f.dup - 1))];
        if f.dup - 1 == 0 {
          CloseFile(e.handle);
        }
      }
      procs := procs[p := procs[p].(table := procs[p].table[fd := Null])];
    }

    /** `None` is a write outside the table. */
    method Dup2(p: nat, oldfd: int, newfd: int) returns (fd: Option<int>)
      requires Inv(Value()) && Alive(Value(), p)
      modifies this`procs, this`files, this`inodes
      ensures fd.None? <==> SysDup2(old(Value()), p, oldfd, newfd).Fault?
      ensures fd.Some? ==> SysDup2(old(Value()), p, oldfd, newfd) == Ok(Value()) && Inv(Value())
      ensures fd.Some? ==> fd.value == if 0 <= oldfd < MAX_FD && old(procs[p].table[oldfd]) != Null then newfd else -1
    {
      SysDup2Ok(Value(), p, oldfd, newfd);
      if oldfd < 0 || oldfd >= MAX_FD { return Some(-1); }
      var e := procs[p].table[oldfd];
      if e == Null { return Some(-1); }
      if oldfd == newfd { return Some(newfd); }
      RetainFiles(Value(), p, oldfd);
      match e {
        case Stdin => procs := procs[p := procs[p].(stdin := procs[p].stdin + 1)];
        case Stdout => procs := procs[p := procs[p].(stdout := procs[p].stdout + 1)];
        case File(k) => files := files[k := Some(files[k].value.(dup := files[k].value.dup + 1))];
      }
      assert Retain(old(Value()), p, e) == Ok(Value());
      if newfd < 0 || newfd >= MAX_FD { return None; }
      Close(p, newfd);
      procs := procs[p := procs[p].(table := procs[p].table[newfd := procs[p].table[oldfd]])];
      fd := Some(newfd);
    }

    method CloseAll(p: nat)
      requires Inv(Value()) && Alive(Value(), p)
      modifies this`procs, this`files, this`inodes
      ensures CloseTable(old(Value()), p, MAX_FD) == Ok(Value())
    {
      ghost var before := Value();
      var i := 0;
      while i < MAX_FD
        invariant i <= MAX_FD && CloseTable(before, p, i) == Ok(Value())
      {
        ghost var r := CloseTableOk(before, p, i);
        CloseTableNext(before, r, p, i);
        SysCloseOk(Value(), p, i, map[]);
        Close(p, i);
        i := i + 1;
      }
    }

    method CloseExecutable(p: nat)
      requires Inv(Value()) && Alive(Value(), p)
      modifies this`files, this`inodes
      ensures CloseRunning(old(Value()), p) == Ok(Value())
    {
      var q := procs[p];
      if q.running.Some? {
        var k := q.running.value;
        assert FileOk(Value(), k, map[]);
        RefsAtLeast(procs, p, k);
        AllowWriteOk(Value(), k);
        if files[k].value.deny {
          var n := files[k].value.inode;
          inodes := inodes[n := inodes[n].(denyCnt := inodes[n].denyCnt - 1)];
          files := files[k := Some(files[k].value.(deny := false))];
        }
        CloseFile(k);
      }
    }

    method ProcessExit(p: nat)
      requires Inv(Value()) && Alive(Value(), p)
      modifies this`procs, this`files, this`inodes
      ensures Exit(old(Value()), p) == Ok(Value()) && Inv(Value())
    {
      ExitOk(Value(), p);
      ghost var _ := CloseTableOk(Value(), p, MAX_FD);
      CloseAll(p);
      CloseExecutable(p);
      procs := procs[p := Process([], 0, 0, 0, None)];
    }

    /** `file_duplicate`: null when there is no memory. */
    method DuplicateFile(k: nat, fails: bool) returns (e: Entry)
      requires InodesOk(files, inodes) && k < |files| && files[k].Some?
      modifies this`files, this`inodes
      ensures Duplicate(old(Value()), k, fails) == (Ok(Value()), e)
    {
      OpenInode(files, inodes, k);
      if fails { return Null; }
      var n, i, deny := |files|, files[k].value.inode, files[k].value.deny;
      NewHandleInodes(Value(), i);
      inodes := inodes[i := inodes[i].(openCnt := inodes[i].openCnt + 1)];
      files := files + [Some(Handle(i, 1, false))];
      DenyWriteOk(Value(), n);
      if deny {
        files := files[n := Some(Handle(i, 1, true))];
        inodes := inodes[i := inodes[i].(denyCnt := inodes[i].denyCnt + 1)];
      }
      e := File(n);
    }

    method CopyEntry(p: nat, c: nat, fd: nat, fails: set<nat>)
      requires Alive(Value(), p) && Alive(Value(), c) && fd < MAX_FD && InodesOk(files, inodes)
      requires ForkEntry(Value(), p, c, fd, fails).Ok?
      modifies this`procs, this`files, this`inodes
      ensures ForkEntry(old(Value()), p, c, fd, fails) == Ok(Value())
    {
      var e := procs[p].table[fd];
      if fd <= 1 || e == Stdin || e == Stdout {
        procs := procs[c := procs[c].(table := procs[c].table[fd := e])];
      } else if e.File? {
        var e' := DuplicateFile(e.handle, fd in fails);
        procs := procs[c := procs[c].(table := procs[c].table[fd := e'])];
      }
    }

    method CopyTable(p: nat, c: nat, fails: set<nat>)
      requires Alive(Value(), p) && Alive(Value(), c) && p != c && procs[c] == NewProcess()
      requires InodesOk(files, inodes) && FilesOk(Value(), map[])
      modifies this`procs, this`files, this`inodes
      ensures ForkTable(old(Value()), p, c, MAX_FD, fails) == Ok(Value())
    {
      ghost var a := Value();
      var fd := 0;
      while fd < MAX_FD
        invariant fd <= MAX_FD && ForkTable(a, p, c, fd, fails) == Ok(Value())
      {
        ghost var r := ForkTableOk(a, p, c, fd, fails);
        ForkTableNext(a, r, p, c, fd, fails);
        ghost var _ := ForkEntryOk(a, r, p, c, fd, fails);
        CopyEntry(p, c, fd, fails);
        fd := fd + 1;
      }
    }

    method DoFork(p: nat, fails: set<nat>) returns (c: nat)
      requires Inv(Value()) && Alive(Value(), p)
      modifies this`procs, this`files, this`inodes
      ensures c == |old(procs)| && Fork(old(Value()), p, fails) == Ok(Value())
    {
      NewbornOk(Value());
      c := |procs|;
      procs := procs + [NewProcess()];
      if procs[p].idx == MAX_FD { return; }
      ghost var _ := ForkTableOk(Value(), p, c, MAX_FD, fails);
      CopyTable(p, c, fails);
      procs := procs[c := procs[c].(idx := procs[p].idx, stdin := procs[p].stdin, stdout := procs[p].stdout)];
    }
  }
}
