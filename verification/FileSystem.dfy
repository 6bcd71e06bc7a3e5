/**
 The base file system of pintos-kaist/filesys: the free map (free-map.c), extent inodes with
 deferred deletion (inode.c), the root directory as a table of entries (directory.c) and the
 operations over them (filesys.c).

 A file is known by the sector of its inode. Opening the root directory is balanced within every
 operation and is not tracked; the sectors of the free map (sector 0) and of the root directory are reserved.
 What may fail in the environment (memory, a short read or write) is a parameter of each step.
 */
module FileSystem {
  import opened Wrappers
  import opened Bitmaps
  import opened InodeIO

  const NAME_MAX: nat := 14

  /** `struct inode_disk`: where the file's data is. */
  datatype Extent = Extent(start: nat, length: nat) {
    function Count(): nat {
      BytesToSectors(length)
    }

    predicate Covers(a: nat) {
      start <= a < start + Count()
    }
  }

  datatype Entry = Entry(inUse: bool, name: string, sector: nat)

  datatype OpenInode = OpenInode(sector: nat, openCnt: nat, removed: bool, data: Extent)

  datatype State = State(
    freeMap: seq<bool>,
    inodes: map<nat, Extent>,      // inode sectors as last written
    entries: seq<Entry>,           // the root directory
    open: seq<OpenInode>,          // in-memory inodes, most recent first
    reserved: set<nat>)

  // ---------------------------------------------------------------------------------
  // Lookups

  /** The first entry in use with this name. */
  function Lookup(entries: seq<Entry>, name: string): (r: Option<nat>)
    ensures r.Some? ==> r.value < |entries| && entries[r.value].inUse && entries[r.value].name == name
    ensures forall k :: 0 <= k < (if r.Some? then r.value else |entries|) ==>
              !(entries[k].inUse && entries[k].name == name)
  {
    if entries == [] then None
    else if entries[|entries| - 1].inUse && entries[|entries| - 1].name == name
            && Lookup(entries[..|entries| - 1], name).None? then Some(|entries| - 1)
    else Lookup(entries[..|entries| - 1], name)
  }

  function FreeEntry(entries: seq<Entry>): (r: Option<nat>)
    ensures r.Some? ==> r.value < |entries| && !entries[r.value].inUse
    ensures r.None? ==> forall k :: 0 <= k < |entries| ==> entries[k].inUse
  {
    if entries == [] then None
    else
      var r := FreeEntry(entries[..|entries| - 1]);
      if r.None? && !entries[|entries| - 1].inUse then Some(|entries| - 1) else r
  }

  /** The entries a scan sees that can read `readable` of them. */
  function Scanned(entries: seq<Entry>, readable: nat): (r: seq<Entry>)
    ensures |r| == if readable < |entries| then readable else |entries|
    ensures forall k :: 0 <= k < |r| ==> r[k] == entries[k]
  {
    if readable < |entries| then entries[..readable] else entries
  }

  /** Where dir_add writes: the first free entry it reads, or where its reading ended. */
  function SlotAt(entries: seq<Entry>, readable: nat): nat {
    var scanned := Scanned(entries, readable);
    if FreeEntry(scanned).Some? then FreeEntry(scanned).value else |scanned|
  }

  function FindOpen(open: seq<OpenInode>, sector: nat): (r: Option<nat>)
    ensures r.Some? ==> r.value < |open| && open[r.value].sector == sector
    ensures r.None? ==> forall k :: 0 <= k < |open| ==> open[k].sector != sector
  {
    if open == [] then None
    else if open[0].sector == sector then Some(0)
    else
      var r := FindOpen(open[1..], sector);
      if r.None? then None else Some(r.value + 1)
  }

  // ---------------------------------------------------------------------------------
  // Steps

  /** free_map_allocate: first fit, undone when the free map file cannot be written. */
  function Allocate(freeMap: seq<bool>, cnt: nat, written: bool): (r: Option<nat>) {
    if written then FirstFit(freeMap, 0, cnt, false) else None
  }

  /** `root`: the root directory could be opened.  `scan` and `slot`: how many entries lookup, and dir_add after it, could
      read; each read needs a bounce buffer. */
  datatype Env = Env(root: bool, inodeMemory: bool, fileMemory: bool, map1: bool, map2: bool, dirWrite: bool, scan: nat, slot: nat)

  /** filesys_create. On a failure the inode sector is given back, but not the data extent. */
  function Create(s: State, name: string, size: nat, env: Env): (r: (State, bool)) {
    if !env.root || |name| > NAME_MAX then (s, false) else
    var i := Allocate(s.freeMap, 1, env.map1);
    if i.None? then (s, false) else
    var fm1 := Filled(s.freeMap, i.value, 1, true);
    if !env.inodeMemory then (s.(freeMap := Filled(fm1, i.value, 1, false)), false) else
    var st := Allocate(fm1, BytesToSectors(size), env.map2);
    if st.None? then (s.(freeMap := Filled(fm1, i.value, 1, false)), false) else
    var fm2 := Filled(fm1, st.value, BytesToSectors(size), true);
    var s2 := s.(freeMap := fm2, inodes := s.inodes[i.value := Extent(st.value, size)]);
    if AddFails(s, name, env)
    then (s2.(freeMap := Filled(fm2, i.value, 1, false)), false)
    else (s2.(entries := s.entries[SlotAt(s.entries, env.slot) := Entry(true, name, i.value)]), true)
  }

  /** When dir_add refuses a name of legal length: it finds the name, or its scan ends behind the last entry, where the
      directory cannot grow. */
  predicate AddFails(s: State, name: string, env: Env) {
    name == "" || Lookup(Scanned(s.entries, env.scan), name).Some? || SlotAt(s.entries, env.slot) >= |s.entries| || !env.dirWrite
  }

  /** inode_open: the one in-memory inode of this sector, or a new one. */
  function InodeOpen(s: State, sector: nat, memory: bool): (r: (State, bool)) {
    var k := FindOpen(s.open, sector);
    if k.Some? then
      var o := s.open[k.value];
      (s.(open := s.open[k.value := o.(openCnt := o.openCnt + 1)]), true)
    else if memory && sector in s.inodes then
      (s.(open := [OpenInode(sector, 1, false, s.inodes[sector])] + s.open), true)
    else (s, false)
  }

  /** inode_close: the last closer of a removed inode gives its sectors back. */
  function InodeClose(s: State, k: nat): (r: State)
    requires k < |s.open|
  {
    var o := s.open[k];
    if o.openCnt > 1 then s.(open := s.open[k := o.(openCnt := o.openCnt - 1)]) else
    var s' := s.(open := s.open[..k] + s.open[k + 1..]);
    if o.removed && o.sector < |s.freeMap| && o.data.start + o.data.Count() <= |s.freeMap|
    then s'.(freeMap := Filled(Filled(s.freeMap, o.sector, 1, false), o.data.start, o.data.Count(), false))
    else s'
  }

  /** filesys_open, up to the handle. */
  function Open(s: State, name: string, env: Env): (r: (State, Option<nat>)) {
    var e := Lookup(Scanned(s.entries, env.scan), name);
    if !env.root || e.None? then (s, None) else
    var sector := s.entries[e.value].sector;
    var (s1, ok) := InodeOpen(s, sector, env.inodeMemory);
    if !ok || FindOpen(s1.open, sector).None? then (s, None)
    else if !env.fileMemory then (InodeClose(s1, FindOpen(s1.open, sector).value), None)
    else (s1, Some(sector))
  }

  /** filesys_remove: unnames the file now; its sectors go when the last opener closes it. */
  function Remove(s: State, name: string, env: Env): (r: (State, bool)) {
    var e := Lookup(Scanned(s.entries, env.scan), name);
    if !env.root || e.None? then (s, false) else
    var sector := s.entries[e.value].sector;
    var (s1, ok) := InodeOpen(s, sector, env.inodeMemory);
    var k := FindOpen(s1.open, sector);
    if !ok || k.None? then (s, false)
    else if !env.dirWrite then (InodeClose(s1, k.value), false)
    else
      var s2 := s1.(entries := s1.entries[e.value := s1.entries[e.value].(inUse := false)],
                    open := s1.open[k.value := s1.open[k.value].(removed := true)]);
      (InodeClose(s2, k.value), true)
  }

  // ---------------------------------------------------------------------------------
  // The invariant

  ghost predicate Named(s: State, i: nat) {
    exists k :: 0 <= k < |s.entries| && s.entries[k].inUse && s.entries[k].sector == i
  }

  ghost predicate IsOpen(s: State, i: nat) {
    exists k :: 0 <= k < |s.open| && s.open[k].sector == i
  }

  /** Named, or removed but still open. */
  ghost predicate Live(s: State, i: nat) {
    Named(s, i) || IsOpen(s, i)
  }

  /** Sector `a` belongs to the file with inode sector `i`. */
  ghost predicate Owns(s: State, i: nat, a: nat) {
    i in s.inodes && (a == i || s.inodes[i].Covers(a))
  }

  ghost predicate LiveOk(s: State, i: nat) {
    Live(s, i) ==>
      && i in s.inodes && i < |s.freeMap| && s.inodes[i].start + s.inodes[i].Count() <= |s.freeMap|
      && !s.inodes[i].Covers(i)
      && forall a: nat {:trigger Owns(s, i, a)} :: Owns(s, i, a) ==> a < |s.freeMap| && s.freeMap[a] && a !in s.reserved
  }

  ghost predicate Apart(s: State, i: nat, j: nat) {
    Live(s, i) && Live(s, j) && i != j ==>
      forall a: nat {:trigger Owns(s, i, a)} {:trigger Owns(s, j, a)} :: !(Owns(s, i, a) && Owns(s, j, a))
  }

  ghost predicate OpenOk(s: State, k: nat)
    requires k < |s.open|
  {
    var o := s.open[k];
    && o.openCnt >= 1
    && o.sector in s.inodes && o.data == s.inodes[o.sector]
    && (o.removed <==> !Named(s, o.sector))
  }

  ghost predicate DirOk(s: State) {
    forall k, m :: 0 <= k < m < |s.entries| && s.entries[k].inUse && s.entries[m].inUse ==>
      s.entries[k].name != s.entries[m].name && s.entries[k].sector != s.entries[m].sector
  }

  /** Live files are allocated, and no two share a sector. */
  ghost predicate FilesOk(s: State) {
    && (forall i {:trigger LiveOk(s, i)} :: LiveOk(s, i))
    && (forall i, j {:trigger Apart(s, i, j)} :: Apart(s, i, j))
  }

  ghost predicate Inv(s: State) {
    && FilesOk(s)
    && (forall k {:trigger OpenOk(s, k)} :: 0 <= k < |s.open| ==> OpenOk(s, k))
    && (forall k, m :: 0 <= k < m < |s.open| ==> s.open[k].sector != s.open[m].sector)
    && DirOk(s)
    && 0 in s.reserved && (forall a :: a in s.reserved ==> a < |s.freeMap| && s.freeMap[a])
  }

  /** Fewer live files on the same disk: nothing can go wrong. */
  lemma FewerFiles(s: State, r: State)
    requires FilesOk(s) && r.inodes == s.inodes && r.freeMap == s.freeMap && r.reserved == s.reserved
    requires forall i {:trigger Live(r, i)} :: Live(r, i) ==> Live(s, i)
    ensures FilesOk(r)
  {
    forall i
      ensures LiveOk(r, i)
    {
      assert LiveOk(s, i);
      forall a: nat | Live(r, i) && Owns(r, i, a)
        ensures a < |r.freeMap| && r.freeMap[a] && a !in r.reserved
      {
        assert Owns(s, i, a);
      }
    }
    forall i, j
      ensures Apart(r, i, j)
    {
      assert Apart(s, i, j);
      forall a: nat | Live(r, i) && Live(r, j) && i != j
        ensures !(Owns(r, i, a) && Owns(r, j, a))
      {
        assert Owns(r, i, a) == Owns(s, i, a);
      }
    }
  }

  lemma NamedByEntries(s: State, r: State)
    requires s.entries == r.entries
    ensures forall i {:trigger Named(r, i)} :: Named(r, i) == Named(s, i)
  {
    forall i
      ensures Named(r, i) == Named(s, i)
    {
      if Named(r, i) {
        var k :| 0 <= k < |r.entries| && r.entries[k].inUse && r.entries[k].sector == i;
        assert s.entries[k].sector == i;
      }
      if Named(s, i) {
        var k :| 0 <= k < |s.entries| && s.entries[k].inUse && s.entries[k].sector == i;
        assert r.entries[k].sector == i;
      }
    }
  }

  // ---------------------------------------------------------------------------------
  // Opening and closing inodes

  lemma InodeOpenOk(s: State, sector: nat, memory: bool)
    requires Inv(s) && Named(s, sector)
    ensures Inv(InodeOpen(s, sector, memory).0)
    ensures InodeOpen(s, sector, memory).1 <==> IsOpen(s, sector) || memory
    ensures InodeOpen(s, sector, memory).1 ==> FindOpen(InodeOpen(s, sector, memory).0.open, sector).Some?
  {
    var (r, ok) := InodeOpen(s, sector, memory);
    assert LiveOk(s, sector);
    var k := FindOpen(s.open, sector);
    if k.Some? {
      assert s.open[k.value].sector == sector;
    }
    if ok {
      NamedByEntries(s, r);
      var at := if k.Some? then k.value else 0;
      var shift := if k.Some? then 0 else 1;
      assert r.open[at].sector == sector;
      forall m | 0 <= m < |r.open|
        ensures OpenOk(r, m)
        ensures m != at ==> m - shift < |s.open| && m - shift >= 0 && r.open[m] == s.open[m - shift]
      {
        if m != at || k.Some? {
          assert OpenOk(s, m - shift);
        }
      }
      forall i | Live(r, i)
        ensures Live(s, i)
      {
        if !Named(s, i) {
          var m :| 0 <= m < |r.open| && r.open[m].sector == i;
          assert m != at || k.Some?;
          assert s.open[m - shift].sector == i;
        }
      }
      FewerFiles(s, r);
    }
  }

  /** The sectors of one file have been given back, and it is no longer live. */
  lemma FileReleased(s: State, r: State, gone: nat)
    requires FilesOk(s) && Live(s, gone) && !Live(r, gone)
    requires r.inodes == s.inodes && r.reserved == s.reserved && |r.freeMap| == |s.freeMap|
    requires forall i {:trigger Live(r, i)} :: Live(r, i) ==> Live(s, i)
    requires forall a: nat {:trigger Owns(s, gone, a)} :: a < |s.freeMap| ==>
               r.freeMap[a] == (s.freeMap[a] && !Owns(s, gone, a))
    ensures FilesOk(r)
  {
    forall i
      ensures LiveOk(r, i)
    {
      assert LiveOk(s, i) && Apart(s, i, gone);
      forall a: nat | Live(r, i) && Owns(r, i, a)
        ensures a < |r.freeMap| && r.freeMap[a] && a !in r.reserved
      {
        assert Owns(s, i, a) && !Owns(s, gone, a);
      }
    }
    forall i, j
      ensures Apart(r, i, j)
    {
      assert Apart(s, i, j);
      forall a: nat | Live(r, i) && Live(r, j) && i != j
        ensures !(Owns(r, i, a) && Owns(r, j, a))
      {
        assert Owns(r, i, a) == Owns(s, i, a);
      }
    }
  }

  /** Without the k-th in-memory inode, the others are as they were. */
  lemma OpenWithout(s: State, r: State, k: nat)
    requires Inv(s) && k < |s.open| && r.open == s.open[..k] + s.open[k + 1..]
    requires r.entries == s.entries && r.inodes == s.inodes
    ensures forall m {:trigger OpenOk(r, m)} :: 0 <= m < |r.open| ==> OpenOk(r, m)
    ensures forall m, n :: 0 <= m < n < |r.open| ==> r.open[m].sector != r.open[n].sector
    ensures !IsOpen(r, s.open[k].sector)
    ensures forall i {:trigger Live(r, i)} :: Live(r, i) ==> Live(s, i)
  {
    NamedByEntries(s, r);
    forall m | 0 <= m < |r.open|
      ensures OpenOk(r, m) && r.open[m] == s.open[if m < k then m else m + 1]
    {
      assert OpenOk(s, if m < k then m else m + 1);
    }
    forall i | Live(r, i)
      ensures Live(s, i)
    {
      if !Named(s, i) {
        var m :| 0 <= m < |r.open| && r.open[m].sector == i;
        assert s.open[if m < k then m else m + 1].sector == i;
      }
    }
  }

  /** Sectors are given back exactly when the last opener of a removed inode closes it, and then
      exactly the file's own. */
  lemma InodeCloseOk(s: State, k: nat)
    requires Inv(s) && k < |s.open|
    ensures var r, o := InodeClose(s, k), s.open[k];
            && Inv(r)
            && |r.freeMap| == |s.freeMap|
            && forall a: nat {:trigger Owns(s, o.sector, a)} :: a < |s.freeMap| ==>
                 r.freeMap[a] == (s.freeMap[a] && !(o.openCnt == 1 && o.removed && Owns(s, o.sector, a)))
  {
    var o := s.open[k];
    assert OpenOk(s, k) && LiveOk(s, o.sector);
    assert IsOpen(s, o.sector);
    if o.openCnt > 1 { CloseShared(s, k); } else { CloseLast(s, k); }
  }

  lemma CloseShared(s: State, k: nat)
    requires Inv(s) && k < |s.open| && s.open[k].openCnt > 1
    ensures Inv(InodeClose(s, k)) && InodeClose(s, k).freeMap == s.freeMap
  {
    var r := InodeClose(s, k);
    assert OpenOk(s, k);
    NamedByEntries(s, r);
    forall m | 0 <= m < |r.open|
      ensures OpenOk(r, m) && r.open[m].sector == s.open[m].sector
    {
      assert OpenOk(s, m);
    }
    forall i | Live(r, i)
      ensures Live(s, i)
    {
      if !Named(s, i) {
        var m :| 0 <= m < |r.open| && r.open[m].sector == i;
        assert s.open[m].sector == i;
      }
    }
    FewerFiles(s, r);
  }

  lemma CloseLast(s: State, k: nat)
    requires Inv(s) && k < |s.open| && s.open[k].openCnt == 1 && LiveOk(s, s.open[k].sector)
    ensures var r, o := InodeClose(s, k), s.open[k];
            && Inv(r)
            && |r.freeMap| == |s.freeMap|
            && forall a: nat {:trigger Owns(s, o.sector, a)} :: a < |s.freeMap| ==>
                 r.freeMap[a] == (s.freeMap[a] && !(o.removed && Owns(s, o.sector, a)))
  {
    var r, o := InodeClose(s, k), s.open[k];
    assert OpenOk(s, k) && IsOpen(s, o.sector);
    OpenWithout(s, r, k);
    if o.removed {
      NamedByEntries(s, r);
      FileReleased(s, r, o.sector);
      forall a | a in r.reserved
        ensures a < |r.freeMap| && r.freeMap[a]
      {
        assert !Owns(s, o.sector, a);
      }
    } else {
      FewerFiles(s, r);
    }
  }

  // ---------------------------------------------------------------------------------
  // Creating files

  /** `r` has, besides the files of `s`, possibly the new file `i` on sectors that were free. */
  ghost predicate Grown(s: State, r: State, i: nat) {
    && |r.freeMap| == |s.freeMap| && r.reserved == s.reserved && r.open == s.open
    && i < |s.freeMap| && !s.freeMap[i]
    && (forall a :: 0 <= a < |s.freeMap| && s.freeMap[a] ==> r.freeMap[a])
    && r.inodes.Keys == s.inodes.Keys + {i}
    && (forall j :: j in s.inodes && j != i ==> r.inodes[j] == s.inodes[j])
    && (forall j {:trigger Named(r, j)} :: Named(r, j) ==> Named(s, j) || j == i)
    && (Named(r, i) ==>
          && r.inodes[i].start + r.inodes[i].Count() <= |r.freeMap| && !r.inodes[i].Covers(i)
          && forall a: nat {:trigger Owns(r, i, a)} :: Owns(r, i, a) ==>
               a < |s.freeMap| && !s.freeMap[a] && r.freeMap[a])
  }

  lemma FreeSectorNotLive(s: State, i: nat)
    requires FilesOk(s) && i < |s.freeMap| && !s.freeMap[i]
    ensures !Live(s, i)
  {
    assert LiveOk(s, i);
    if Live(s, i) {
      assert Owns(s, i, i);
    }
  }

  lemma GrownFilesOk(s: State, r: State, i: nat)
    requires Inv(s) && Grown(s, r, i)
    ensures FilesOk(r)
  {
    FreeSectorNotLive(s, i);
    forall j
      ensures Live(r, j) ==> Live(s, j) || j == i
    {
      if Live(r, j) && !Named(r, j) {
        var k :| 0 <= k < |r.open| && r.open[k].sector == j;
        assert s.open[k].sector == j;
      }
    }
    assert Live(r, i) ==> Named(r, i);
    forall j
      ensures LiveOk(r, j)
    {
      assert LiveOk(s, j);
      forall a: nat | Live(r, j) && Owns(r, j, a)
        ensures a < |r.freeMap| && r.freeMap[a] && a !in r.reserved
      {
        if j != i {
          assert Owns(s, j, a);
        }
      }
    }
    forall j, m
      ensures Apart(r, j, m)
    {
      assert Apart(s, j, m) && LiveOk(s, j) && LiveOk(s, m);
      forall a: nat | Live(r, j) && Live(r, m) && j != m && Owns(r, j, a)
        ensures !Owns(r, m, a)
      {
        assert j != i ==> Owns(s, j, a);
        assert m != i ==> Owns(r, m, a) == Owns(s, m, a);
      }
    }
  }

  lemma GrownOpenOk(s: State, r: State, i: nat)
    requires Inv(s) && Grown(s, r, i)
    requires forall j {:trigger Named(s, j)} :: Named(s, j) && IsOpen(s, j) ==> Named(r, j)
    ensures forall k {:trigger OpenOk(r, k)} :: 0 <= k < |r.open| ==> OpenOk(r, k)
  {
    FreeSectorNotLive(s, i);
    forall k | 0 <= k < |r.open|
      ensures OpenOk(r, k)
    {
      assert OpenOk(s, k);
      assert IsOpen(s, s.open[k].sector);
    }
  }

  lemma CreateParts(s: State, size: nat, i: nat, st: nat)
    requires FirstFit(s.freeMap, 0, 1, false) == Some(i)
    requires FirstFit(Filled(s.freeMap, i, 1, true), 0, BytesToSectors(size), false) == Some(st)
    ensures i < |s.freeMap| && !s.freeMap[i] && st + BytesToSectors(size) <= |s.freeMap|
    ensures !Extent(st, size).Covers(i)
    ensures forall a: nat {:trigger Extent(st, size).Covers(a)} :: Extent(st, size).Covers(a) ==> !s.freeMap[a]
  {
    assert Run(s.freeMap, i, 1, false) && !s.freeMap[i];
    var fm1 := Filled(s.freeMap, i, 1, true);
    assert Run(fm1, st, BytesToSectors(size), false);
    forall a: nat | Extent(st, size).Covers(a)
      ensures a < |s.freeMap| && !s.freeMap[a] && a != i
    {
      assert fm1[a] == false;
    }
  }

  /** A create that reaches the directory leaves a grown file system, named or not. */
  lemma CreateGrows(s: State, name: string, size: nat, env: Env, i: nat, st: nat)
    requires Inv(s) && env.root && |name| <= NAME_MAX && env.inodeMemory
    requires Allocate(s.freeMap, 1, env.map1) == Some(i)
    requires Allocate(Filled(s.freeMap, i, 1, true), BytesToSectors(size), env.map2) == Some(st)
    ensures Grown(s, Create(s, name, size, env).0, i)
  {
    var r := Create(s, name, size, env).0;
    CreateParts(s, size, i, st);
    FreeSectorNotLive(s, i);
    if AddFails(s, name, env) { NamedByEntries(s, r); } else { CreateNames(s, r, SlotAt(s.entries, env.slot), i); }
  }

  /** Another entry than `at` has that name already. */
  predicate Doubles(s: State, name: string, at: nat) {
    exists k :: 0 <= k < |s.entries| && k != at && s.entries[k].inUse && s.entries[k].name == name
  }

  /** Entry `at` names a file that is open. */
  predicate NamesOpen(s: State, at: nat) {
    at < |s.entries| && s.entries[at].inUse && FindOpen(s.open, s.entries[at].sector).Some?
  }

  /** The entry that dir_add would write must not be: the name is there already, or an open file would lose its own. */
  predicate Clashes(s: State, name: string, env: Env) {
    Doubles(s, name, SlotAt(s.entries, env.slot)) || NamesOpen(s, SlotAt(s.entries, env.slot))
  }

  /** A create keeps the invariant, whatever fails, if and only if it does not go through with a clash. */
  lemma CreateOkIff(s: State, name: string, size: nat, env: Env)
    requires Inv(s)
    ensures Inv(Create(s, name, size, env).0) <==> !(Create(s, name, size, env).1 && Clashes(s, name, env))
  {
    var r := Create(s, name, size, env).0;
    if ReachesDirectory(s, name, size, env) {
      var i := Allocate(s.freeMap, 1, env.map1).value;
      var st := Allocate(Filled(s.freeMap, i, 1, true), BytesToSectors(size), env.map2).value;
      CreateGrows(s, name, size, env, i, st);
      GrownFilesOk(s, r, i);
      assert Run(s.freeMap, i, 1, false) && !s.freeMap[i];
      if AddFails(s, name, env) {
        NamedByEntries(s, r);
        GrownOpenOk(s, r, i);
      } else if Clashes(s, name, env) {
        ClashBreaks(s, r, name, SlotAt(s.entries, env.slot), i);
      } else {
        NoClashOk(s, r, name, SlotAt(s.entries, env.slot), i);
      }
    } else {
      FailedCreate(s, name, size, env);
    }
  }

  lemma ClashBreaks(s: State, r: State, name: string, at: nat, i: nat)
    requires Inv(s) && at < |s.entries| && i < |s.freeMap| && !s.freeMap[i] && r.open == s.open
    requires r.entries == s.entries[at := Entry(true, name, i)] && (Doubles(s, name, at) || NamesOpen(s, at))
    ensures !Inv(r)
  {
    if Doubles(s, name, at) {
      var k :| 0 <= k < |s.entries| && k != at && s.entries[k].inUse && s.entries[k].name == name;
      assert r.entries[k] == s.entries[k] && r.entries[at].name == name;
    } else {
      var sector := s.entries[at].sector;
      var m := FindOpen(s.open, sector).value;
      assert OpenOk(s, m) && Named(s, sector);
      FreeSectorNotLive(s, i);
      assert Live(s, sector);
      assert !Named(r, sector);
      assert !OpenOk(r, m);
    }
  }

  lemma NoClashOk(s: State, r: State, name: string, at: nat, i: nat)
    requires Inv(s) && at < |s.entries| && i < |s.freeMap| && !s.freeMap[i] && Grown(s, r, i) && FilesOk(r)
    requires r.entries == s.entries[at := Entry(true, name, i)] && !Doubles(s, name, at) && !NamesOpen(s, at)
    requires forall a :: a in s.reserved ==> a < |r.freeMap| && r.freeMap[a]
    ensures Inv(r)
  {
    FreeSectorNotLive(s, i);
    forall j | Named(s, j) && IsOpen(s, j)
      ensures Named(r, j)
    {
      var k :| 0 <= k < |s.entries| && s.entries[k].inUse && s.entries[k].sector == j;
      assert k != at;
      assert r.entries[k].sector == j;
    }
    GrownOpenOk(s, r, i);
    forall k | 0 <= k < |s.entries| && s.entries[k].inUse
      ensures s.entries[k].sector != i
    {
      assert Named(s, s.entries[k].sector);
    }
    assert DirOk(r);
  }

  lemma CreateNames(s: State, r: State, at: nat, i: nat)
    requires Inv(s) && i < |s.freeMap| && !s.freeMap[i] && at < |s.entries| && at < |r.entries|
    requires r.entries == s.entries[at := r.entries[at]] && r.entries[at].inUse && r.entries[at].sector == i
    ensures Named(r, i)
    ensures forall j {:trigger Named(r, j)} :: Named(r, j) ==> Named(s, j) || j == i
  {
    forall j | Named(r, j) && j != i
      ensures Named(s, j)
    {
      var k :| 0 <= k < |r.entries| && r.entries[k].inUse && r.entries[k].sector == j;
      assert s.entries[k].sector == j;
    }
  }

  /** With scans that read the whole directory there is no clash. */
  lemma FullScansDoNotClash(s: State, name: string, size: nat, env: Env)
    requires env.scan >= |s.entries| && env.slot >= |s.entries| && Create(s, name, size, env).1
    ensures !Clashes(s, name, env)
  {
  }

  /** The sector that a create allocates is never 0, which filesys_create takes for none. */
  lemma SectorNotZero(s: State, written: bool)
    requires Inv(s) && Allocate(s.freeMap, 1, written).Some?
    ensures Allocate(s.freeMap, 1, written).value != 0
  {
    var i := Allocate(s.freeMap, 1, written).value;
    assert Run(s.freeMap, i, 1, false) && !s.freeMap[i];
  }

  // ---------------------------------------------------------------------------------
  // The directory as a finite map

  /** What a scan finds is what there is. */
  lemma ScanFinds(entries: seq<Entry>, name: string, readable: nat)
    ensures Lookup(Scanned(entries, readable), name) ==
      if Lookup(entries, name).Some? && Lookup(entries, name).value < readable then Lookup(entries, name) else None
  {
    var k := Lookup(entries, name);
    if k.Some? && k.value < readable { LookupUnique(Scanned(entries, readable), name, k.value); }
    var m := Lookup(Scanned(entries, readable), name);
    if m.Some? { LookupUnique(entries, name, m.value); }
  }

  /** A scan cut short gives the right answer if and only if it has passed the entry sought, or there is none. */
  lemma ShortLookupIff(entries: seq<Entry>, name: string, readable: nat)
    ensures Lookup(Scanned(entries, readable), name) == Lookup(entries, name) <==>
            (Lookup(entries, name).Some? ==> Lookup(entries, name).value < readable)
  {
    var k := Lookup(entries, name);
    if k.Some? && k.value < readable {
      LookupUnique(Scanned(entries, readable), name, k.value);
    }
  }

  /** dir_add takes a short read for the end of the directory.  Adding a name there leaves every other name alone if and
      only if the entry it writes was free (or had that name): not when reading failed with only used entries before. */
  lemma ShortScanOverwritesIff(s: State, name: string, sector: nat, readable: nat)
    requires DirOk(s) && SlotAt(s.entries, readable) < |s.entries|
    ensures var at := SlotAt(s.entries, readable);
            var r := s.(entries := s.entries[at := Entry(true, name, sector)]);
            && (s.entries[at].inUse <==> at == readable && FreeEntry(s.entries[..at + 1]).None?)
            && ((forall n :: n != name ==> SectorOf(r, n) == SectorOf(s, n)) <==>
                !s.entries[at].inUse || s.entries[at].name == name)
  {
    var at := SlotAt(s.entries, readable);
    var r := s.(entries := s.entries[at := Entry(true, name, sector)]);
    assert s.entries[..at + 1][..at] == Scanned(s.entries, at);
    if !s.entries[at].inUse || s.entries[at].name == name {
      forall n | n != name ensures SectorOf(r, n) == SectorOf(s, n) { SectorOfOthers(s, r, at, n); }
    } else {
      Overwritten(s, r, at, name);
    }
  }

  /** The name that was there is gone. */
  lemma Overwritten(s: State, r: State, at: nat, name: string)
    requires DirOk(s) && at < |s.entries| && s.entries[at].inUse && s.entries[at].name != name
    requires |r.entries| == |s.entries| && r.entries == s.entries[at := r.entries[at]] && r.entries[at].name == name
    ensures SectorOf(s, s.entries[at].name).Some? && SectorOf(r, s.entries[at].name).None?
  {
    LookupUnique(s.entries, s.entries[at].name, at);
  }

  /** The sector that a name stands for. */
  function SectorOf(s: State, name: string): Option<nat> {
    var e := Lookup(s.entries, name);
    if e.None? then None else Some(s.entries[e.value].sector)
  }

  lemma LookupUnique(entries: seq<Entry>, name: string, k: nat)
    requires k < |entries| && entries[k].inUse && entries[k].name == name
    requires forall m :: 0 <= m < k ==> !(entries[m].inUse && entries[m].name == name)
    ensures Lookup(entries, name) == Some(k)
  {
  }

  /** Rewriting one entry affects only the names in it before and after. */
  lemma SectorOfOthers(s: State, r: State, e: nat, name: string)
    requires e < |s.entries| && |r.entries| == |s.entries| && r.entries == s.entries[e := r.entries[e]]
    requires !(s.entries[e].inUse && s.entries[e].name == name) && !(r.entries[e].inUse && r.entries[e].name == name)
    ensures SectorOf(r, name) == SectorOf(s, name)
  {
    var k := Lookup(s.entries, name);
    if k.Some? {
      assert k.value != e;
      LookupUnique(r.entries, name, k.value);
    }
  }

  /** The new entry is for a sector that was free.  The name stands for it unless an earlier entry, which lookup could not
      read, has the name; every other name is as before unless its entry was the one written. */
  lemma CreateAdds(s: State, name: string, size: nat, env: Env, other: string)
    requires Inv(s) && Create(s, name, size, env).1
    ensures var r := Create(s, name, size, env).0; var at := SlotAt(s.entries, env.slot);
            && at < |s.entries| && r.entries == s.entries[at := r.entries[at]]
            && var i := r.entries[at].sector;
            && !Live(s, i) && i in r.inodes && r.inodes[i].length == size
            && (Lookup(s.entries, name).Some? ==> Lookup(s.entries, name).value >= env.scan)
            && (SectorOf(r, name) == Some(i) <==> (Lookup(s.entries, name).Some? ==> Lookup(s.entries, name).value >= at))
            && (other != name ==>
                  (SectorOf(r, other) == SectorOf(s, other) <==> !(s.entries[at].inUse && s.entries[at].name == other)))
  {
    var r := Create(s, name, size, env).0;
    var i := Allocate(s.freeMap, 1, env.map1).value;
    assert Run(s.freeMap, i, 1, false) && !s.freeMap[i];
    FreeSectorNotLive(s, i);
    var at := SlotAt(s.entries, env.slot);
    ScanFinds(s.entries, name, env.scan);
    NewName(s, r, name, at, i);
    if other != name {
      if s.entries[at].inUse && s.entries[at].name == other { Overwritten(s, r, at, name); } else { SectorOfOthers(s, r, at, other); }
    }
  }

  lemma NewName(s: State, r: State, name: string, at: nat, i: nat)
    requires at < |s.entries| && r.entries == s.entries[at := Entry(true, name, i)] && !Live(s, i)
    ensures SectorOf(r, name) == Some(i) <==> (Lookup(s.entries, name).Some? ==> Lookup(s.entries, name).value >= at)
  {
    var k := Lookup(s.entries, name);
    if k.Some? && k.value < at {
      LookupUnique(r.entries, name, k.value);
      assert Named(s, s.entries[k.value].sector);
    } else {
      LookupUnique(r.entries, name, at);
    }
  }

  /** A failed create is undone completely, unless it got as far as the directory with a file that
      has data: then the data sectors stay marked although no file owns them. */
  lemma FailedCreate(s: State, name: string, size: nat, env: Env)
    requires !Create(s, name, size, env).1
    ensures var r := Create(s, name, size, env).0;
            && r.entries == s.entries && r.open == s.open && r.reserved == s.reserved
            && (!ReachesDirectory(s, name, size, env) ==> r == s)
            && (r.freeMap == s.freeMap <==> size == 0 || !ReachesDirectory(s, name, size, env))
  {
    var r := Create(s, name, size, env).0;
    var i := Allocate(s.freeMap, 1, env.map1);
    if env.root && |name| <= NAME_MAX && i.Some? {
      assert Run(s.freeMap, i.value, 1, false) && !s.freeMap[i.value];
      var fm1 := Filled(s.freeMap, i.value, 1, true);
      assert Filled(fm1, i.value, 1, false) == s.freeMap;
      var st := Allocate(fm1, BytesToSectors(size), env.map2);
      if env.inodeMemory && st.Some? {
        Leak(s, size, i.value, st.value);
      }
    }
  }

  /** Giving back the inode's sector alone leaves the data's sectors marked, if there are any. */
  lemma Leak(s: State, size: nat, i: nat, st: nat)
    requires FirstFit(s.freeMap, 0, 1, false) == Some(i)
    requires FirstFit(Filled(s.freeMap, i, 1, true), 0, BytesToSectors(size), false) == Some(st)
    ensures var fm2 := Filled(Filled(s.freeMap, i, 1, true), st, BytesToSectors(size), true);
            Filled(fm2, i, 1, false) == s.freeMap <==> size == 0
  {
    CreateParts(s, size, i, st);
    var fm := Filled(Filled(Filled(s.freeMap, i, 1, true), st, BytesToSectors(size), true), i, 1, false);
    if size > 0 {
      assert Extent(st, size).Covers(st);
      assert fm[st] && !s.freeMap[st];
    } else {
      assert fm == s.freeMap;
    }
  }

  predicate ReachesDirectory(s: State, name: string, size: nat, env: Env) {
    && env.root && |name| <= NAME_MAX
    && var i := Allocate(s.freeMap, 1, env.map1);
       && i.Some? && env.inodeMemory
       && Allocate(Filled(s.freeMap, i.value, 1, true), BytesToSectors(size), env.map2).Some?
  }

  // ---------------------------------------------------------------------------------
  // Reference counts

  /** The number of openers that the kernel has recorded for a file. */
  function Openers(s: State, i: nat): nat {
    var k := FindOpen(s.open, i);
    if k.None? then 0 else s.open[k.value].openCnt
  }

  lemma OpenersAt(s: State, k: nat)
    requires k < |s.open| && forall m, n :: 0 <= m < n < |s.open| ==> s.open[m].sector != s.open[n].sector
    ensures FindOpen(s.open, s.open[k].sector) == Some(k) && Openers(s, s.open[k].sector) == s.open[k].openCnt
  {
  }

  lemma OpenersAfterOpen(s: State, sector: nat, memory: bool, i: nat)
    requires Inv(s) && Named(s, sector) && InodeOpen(s, sector, memory).1
    ensures Openers(InodeOpen(s, sector, memory).0, i) == Openers(s, i) + if i == sector then 1 else 0
  {
    InodeOpenOk(s, sector, memory);
    var r := InodeOpen(s, sector, memory).0;
    var k := FindOpen(s.open, i);
    var shift := if FindOpen(s.open, sector).Some? then 0 else 1;
    if k.Some? {
      assert r.open[k.value + shift].sector == i;
      OpenersAt(r, k.value + shift);
    } else if i == sector {
      OpenersAt(r, 0);
    }
  }

  lemma OpenersAfterClose(s: State, k: nat, i: nat)
    requires Inv(s) && k < |s.open|
    ensures Openers(InodeClose(s, k), i) == Openers(s, i) - if i == s.open[k].sector then 1 else 0
  {
    InodeCloseOk(s, k);
    OpenersAt(s, k);
    assert OpenOk(s, k);
    var r := InodeClose(s, k);
    var m := FindOpen(s.open, i);
    if m.Some? && (m.value != k || s.open[k].openCnt > 1) {
      OpenersMoved(s, r, k, m.value);
    }
  }

  lemma OpenersMoved(s: State, r: State, k: nat, m: nat)
    requires Inv(r) && k < |s.open| && m < |s.open| && r == InodeClose(s, k) && (m != k || s.open[k].openCnt > 1)
    ensures Openers(r, s.open[m].sector) == s.open[m].openCnt - if m == k then 1 else 0
  {
    var at := if s.open[k].openCnt > 1 || m < k then m else m - 1;
    assert r.open[at].sector == s.open[m].sector;
    OpenersAt(r, at);
  }

  lemma NamedByLookup(s: State, name: string)
    ensures SectorOf(s, name).Some? ==> Named(s, SectorOf(s, name).value)
  {
    var e := Lookup(s.entries, name);
    if e.Some? {
      assert s.entries[e.value].inUse && s.entries[e.value].sector == SectorOf(s, name).value;
    }
  }

  /** The directory can be opened and lookup can read as far as the name. */
  predicate Readable(s: State, name: string, env: Env) {
    env.root && Lookup(s.entries, name).Some? && Lookup(s.entries, name).value < env.scan
  }

  /** Opening a name yields its file, with one more opener, or changes no count at all.  It succeeds exactly when the
      name can be read and the memory is there. */
  lemma OpenOkStep(s: State, name: string, env: Env)
    requires Inv(s)
    ensures var (r, h) := Open(s, name, env);
            && Inv(r)
            && (h.Some? ==> h == SectorOf(s, name))
            && (h.Some? <==> Readable(s, name, env) && env.fileMemory && (env.inodeMemory || IsOpen(s, SectorOf(s, name).value)))
            && (forall i: nat {:trigger Openers(r, i)} :: Openers(r, i) == Openers(s, i) + if h == Some(i) then 1 else 0)
            && r.entries == s.entries && r.freeMap == s.freeMap
  {
    var (r, h) := Open(s, name, env);
    NamedByLookup(s, name);
    ScanFinds(s.entries, name, env.scan);
    if Readable(s, name, env) {
      var sector := SectorOf(s, name).value;
      InodeOpenOk(s, sector, env.inodeMemory);
      var (s1, ok) := InodeOpen(s, sector, env.inodeMemory);
      if ok {
        forall i
          ensures Openers(s1, i) == Openers(s, i) + if i == sector then 1 else 0
        {
          OpenersAfterOpen(s, sector, env.inodeMemory, i);
        }
        var k := FindOpen(s1.open, sector).value;
        if !env.fileMemory {
          InodeCloseOk(s1, k);
          NamedByEntries(s, s1);
          assert OpenOk(s1, k);
          forall i
            ensures Openers(r, i) == Openers(s, i)
          {
            OpenersAfterClose(s1, k, i);
          }
          NamedCloseKeepsMap(s1, k);
        }
      }
    }
  }

  lemma NamedCloseKeepsMap(s: State, k: nat)
    requires Inv(s) && k < |s.open| && Named(s, s.open[k].sector)
    ensures InodeClose(s, k).freeMap == s.freeMap
  {
    assert OpenOk(s, k);
  }

  /** Marking an open file removed and clearing its entry keeps the invariant. */
  lemma UnnameOk(s: State, e: nat, k: nat)
    requires Inv(s) && e < |s.entries| && s.entries[e].inUse && k < |s.open| && s.open[k].sector == s.entries[e].sector
    ensures Inv(s.(entries := s.entries[e := s.entries[e].(inUse := false)],
                   open := s.open[k := s.open[k].(removed := true)]))
  {
    var sector := s.entries[e].sector;
    var r := s.(entries := s.entries[e := s.entries[e].(inUse := false)],
                open := s.open[k := s.open[k].(removed := true)]);
    forall i
      ensures Named(r, i) <==> Named(s, i) && i != sector
    {
      if Named(r, i) {
        var m :| 0 <= m < |r.entries| && r.entries[m].inUse && r.entries[m].sector == i;
        assert m != e && s.entries[m].sector == i;
      }
      if Named(s, i) && i != sector {
        var m :| 0 <= m < |s.entries| && s.entries[m].inUse && s.entries[m].sector == i;
        assert r.entries[m].sector == i;
      }
    }
    forall m | 0 <= m < |r.open|
      ensures OpenOk(r, m) && r.open[m].sector == s.open[m].sector
    {
      assert OpenOk(s, m);
    }
    forall i | Live(r, i)
      ensures Live(s, i)
    {
      if !Named(r, i) {
        var m :| 0 <= m < |r.open| && r.open[m].sector == i;
        assert s.open[m].sector == i;
      }
    }
    FewerFiles(s, r);
  }

  /** Removing a name unmaps it and no other, and leaves every opener in place; the file's sectors are
      given back at once if nobody has it open, and otherwise stay. */
  lemma RemoveOkStep(s: State, name: string, env: Env)
    requires Inv(s)
    ensures var (r, ok) := Remove(s, name, env);
            && Inv(r)
            && (forall i: nat {:trigger Openers(r, i)} :: Openers(r, i) == Openers(s, i))
            && (!ok ==> r.entries == s.entries && r.freeMap == s.freeMap)
            && (ok <==> Readable(s, name, env) && env.dirWrite && (env.inodeMemory || IsOpen(s, SectorOf(s, name).value)))
            && (ok ==> SectorOf(s, name).Some? && SectorOf(r, name).None?
                       && (forall n :: n != name ==> SectorOf(r, n) == SectorOf(s, n))
                       && (Openers(s, SectorOf(s, name).value) > 0 ==> r.freeMap == s.freeMap)
                       && (Openers(s, SectorOf(s, name).value) == 0 ==> Freed(s, r, SectorOf(s, name).value)))
  {
    var (r, ok) := Remove(s, name, env);
    NamedByLookup(s, name);
    ScanFinds(s.entries, name, env.scan);
    if Readable(s, name, env) {
      var sector := SectorOf(s, name).value;
      InodeOpenOk(s, sector, env.inodeMemory);
      var (s1, found) := InodeOpen(s, sector, env.inodeMemory);
      if found {
        var k := FindOpen(s1.open, sector).value;
        NamedByEntries(s, s1);
        if !env.dirWrite {
          RemoveCounts(s, s1, sector, env.inodeMemory, k, r);
          InodeCloseOk(s1, k);
          NamedCloseKeepsMap(s1, k);
        } else {
          RemoveDone(s, s1, name, sector, env, k);
        }
      }
    }
  }

  /** Exactly the sectors of the file at `sector` have become free. */
  ghost predicate Freed(s: State, r: State, sector: nat) {
    && |r.freeMap| == |s.freeMap|
    && forall a: nat {:trigger Owns(s, sector, a)} :: a < |s.freeMap| ==>
         r.freeMap[a] == (s.freeMap[a] && !Owns(s, sector, a))
  }

  lemma FreedByClose(s: State, s2: State, k: nat, sector: nat)
    requires Inv(s2) && k < |s2.open| && s2.open[k].sector == sector && s2.open[k].openCnt == 1 && s2.open[k].removed
    requires s2.freeMap == s.freeMap && s2.inodes == s.inodes
    ensures Freed(s, InodeClose(s2, k), sector)
  {
    InodeCloseOk(s2, k);
    forall a: nat | a < |s.freeMap|
      ensures InodeClose(s2, k).freeMap[a] == (s.freeMap[a] && !Owns(s, sector, a))
    {
      assert Owns(s2, sector, a) <==> Owns(s, sector, a);
    }
  }

  lemma RemoveCounts(s: State, s1: State, sector: nat, memory: bool, k: nat, r: State)
    requires Inv(s) && Named(s, sector) && InodeOpen(s, sector, memory) == (s1, true) && Inv(s1)
    requires k < |s1.open| && s1.open[k].sector == sector && r == InodeClose(s1, k)
    ensures forall i: nat {:trigger Openers(r, i)} :: Openers(r, i) == Openers(s, i)
  {
    forall i
      ensures Openers(r, i) == Openers(s, i)
    {
      OpenersAfterOpen(s, sector, memory, i);
      OpenersAfterClose(s1, k, i);
    }
  }

  lemma RemoveDone(s: State, s1: State, name: string, sector: nat, env: Env, k: nat)
    requires Inv(s) && SectorOf(s, name) == Some(sector) && env.dirWrite && Named(s, sector) && Readable(s, name, env)
    requires InodeOpen(s, sector, env.inodeMemory) == (s1, true) && Inv(s1)
    requires FindOpen(s1.open, sector) == Some(k)
    ensures var r := Remove(s, name, env).0;
            && Inv(r)
            && (forall i: nat {:trigger Openers(r, i)} :: Openers(r, i) == Openers(s, i))
            && SectorOf(r, name).None?
            && (forall n :: n != name ==> SectorOf(r, n) == SectorOf(s, n))
            && (Openers(s, sector) > 0 ==> r.freeMap == s.freeMap)
            && (Openers(s, sector) == 0 ==> Freed(s, r, sector))
  {
    var r := Remove(s, name, env).0;
    var e := Lookup(s.entries, name).value;
    ScanFinds(s.entries, name, env.scan);
    UnnameOk(s1, e, k);
    var s2 := s1.(entries := s1.entries[e := s1.entries[e].(inUse := false)],
                  open := s1.open[k := s1.open[k].(removed := true)]);
    assert r == InodeClose(s2, k);
    InodeCloseOk(s2, k);
    forall i
      ensures Openers(r, i) == Openers(s, i)
    {
      OpenersAfterOpen(s, sector, env.inodeMemory, i);
      OpenersAfterClose(s2, k, i);
      SameOpeners(s1, s2, i);
    }
    forall n | n != name
      ensures SectorOf(r, n) == SectorOf(s, n)
    {
      SectorOfOthers(s, r, e, n);
    }
    OpenersAfterOpen(s, sector, env.inodeMemory, sector);
    OpenersAt(s1, k);
    if Openers(s, sector) == 0 { FreedByClose(s, s2, k, sector); }
    NameGone(s, r, name, e);
  }

  lemma NameGone(s: State, r: State, name: string, e: nat)
    requires DirOk(s) && Lookup(s.entries, name) == Some(e)
    requires r.entries == s.entries[e := s.entries[e].(inUse := false)]
    ensures SectorOf(r, name).None?
  {
    var k := Lookup(r.entries, name);
    assert forall m :: 0 <= m < |r.entries| && m != e ==> !(r.entries[m].inUse && r.entries[m].name == name);
  }

  lemma SameOpeners(s: State, r: State, i: nat)
    requires |s.open| == |r.open|
    requires forall m :: 0 <= m < |s.open| ==> r.open[m].sector == s.open[m].sector && r.open[m].openCnt == s.open[m].openCnt
    requires forall m, n :: 0 <= m < n < |s.open| ==> s.open[m].sector != s.open[n].sector
    ensures Openers(r, i) == Openers(s, i)
  {
    var k := FindOpen(s.open, i);
    if k.Some? {
      OpenersAt(r, k.value);
    }
  }

  // ---------------------------------------------------------------------------------
  // Runs

  datatype Action =
    | DoCreate(name: string, size: nat, env: Env)
    | DoOpen(name: string, env: Env)
    | DoRemove(name: string, env: Env)
    | DoClose(sector: nat)

  /** A file system together with the handles that its users hold, by inode sector. */
  datatype World = World(fs: State, handles: multiset<nat>)

  /** Only a handle that is held can be closed. */
  ghost predicate Enabled(w: World, a: Action) {
    a.DoClose? ==> w.handles[a.sector] > 0 && FindOpen(w.fs.open, a.sector).Some?
  }

  ghost function Step(w: World, a: Action): World
    requires Enabled(w, a)
  {
    match a
    case DoCreate(name, size, env) => w.(fs := Create(w.fs, name, size, env).0)
    case DoOpen(name, env) =>
      var (r, h) := Open(w.fs, name, env);
      World(r, if h.Some? then w.handles + multiset{h.value} else w.handles)
    case DoRemove(name, env) => w.(fs := Remove(w.fs, name, env).0)
    case DoClose(sector) =>
      World(InodeClose(w.fs, FindOpen(w.fs.open, sector).value), w.handles - multiset{sector})
  }

  /** The files are sound, and every inode's open count is the number of handles on it. */
  ghost predicate WorldOk(w: World) {
    Inv(w.fs) && forall i: nat {:trigger Openers(w.fs, i)} :: Openers(w.fs, i) == w.handles[i]
  }

  /** The action is a create that goes through with a clash. */
  predicate ActionClashes(w: World, a: Action) {
    a.DoCreate? && Create(w.fs, a.name, a.size, a.env).1 && Clashes(w.fs, a.name, a.env)
  }

  lemma StepOkIff(w: World, a: Action)
    requires WorldOk(w) && Enabled(w, a)
    ensures WorldOk(Step(w, a)) <==> !ActionClashes(w, a)
  {
    match a
    case DoCreate(name, size, env) =>
      CreateOkIff(w.fs, name, size, env);
      CreateKeepsOpen(w.fs, name, size, env);
      forall i: nat
        ensures Openers(Step(w, a).fs, i) == w.handles[i]
      {
        assert Openers(w.fs, i) == w.handles[i];
      }
    case DoOpen(name, env) =>
      OpenOkStep(w.fs, name, env);
    case DoRemove(name, env) =>
      RemoveOkStep(w.fs, name, env);
    case DoClose(sector) =>
      CloseKeepsWorldOk(w, sector);
  }

  lemma CloseKeepsWorldOk(w: World, sector: nat)
    requires WorldOk(w) && Enabled(w, DoClose(sector))
    ensures WorldOk(Step(w, DoClose(sector)))
  {
    var r := Step(w, DoClose(sector));
    var k := FindOpen(w.fs.open, sector).value;
    InodeCloseOk(w.fs, k);
    forall i: nat
      ensures Openers(r.fs, i) == r.handles[i]
    {
      OpenersAfterClose(w.fs, k, i);
      assert Openers(w.fs, i) == w.handles[i];
    }
  }

  lemma CreateKeepsOpen(s: State, name: string, size: nat, env: Env)
    ensures Create(s, name, size, env).0.open == s.open
  {
  }

  ghost predicate IsRun(run: seq<World>, actions: seq<Action>) {
    && |run| == |actions| + 1
    && Fresh(run[0])
    && forall i: nat {:trigger StepsTo(run, actions, i)} :: i < |actions| ==> StepsTo(run, actions, i)
  }

  ghost predicate StepsTo(run: seq<World>, actions: seq<Action>, i: nat)
    requires i < |actions| == |run| - 1
  {
    Enabled(run[i], actions[i]) && run[i + 1] == Step(run[i], actions[i])
  }

  /** A formatted disk: no files, only the reserved sectors marked for sure. */
  ghost predicate Fresh(w: World) {
    && w.handles == multiset{} && w.fs.open == []
    && (forall k :: 0 <= k < |w.fs.entries| ==> !w.fs.entries[k].inUse)
    && 0 in w.fs.reserved && forall a :: a in w.fs.reserved ==> a < |w.fs.freeMap| && w.fs.freeMap[a]
  }

  /** The world is sound up to state `i` of the run. */
  ghost predicate SoundThrough(run: seq<World>, i: nat)
    requires i < |run|
  {
    WorldOk(run[i]) && (i > 0 ==> SoundThrough(run, i - 1))
  }

  /** None of the first `i` actions is a create that goes through with a clash. */
  predicate NoClash(run: seq<World>, actions: seq<Action>, i: nat)
    requires i <= |actions| < |run|
  {
    i == 0 || (NoClash(run, actions, i - 1) && !ActionClashes(run[i - 1], actions[i - 1]))
  }

  /** In every run: live files are allocated and pairwise disjoint, there is one in-memory inode per sector, and its count
      is the number of handles, up to the first create that goes through with a clash and no further. */
  lemma {:induction false} RunsKeepWorldOk(run: seq<World>, actions: seq<Action>, i: nat)
    requires IsRun(run, actions) && i < |run|
    ensures SoundThrough(run, i) <==> NoClash(run, actions, i)
  {
    if i == 0 {
      FreshOk(run[0]);
    } else {
      RunsKeepWorldOk(run, actions, i - 1);
      assert StepsTo(run, actions, i - 1);
      if NoClash(run, actions, i - 1) { StepOkIff(run[i - 1], actions[i - 1]); }
    }
  }

  lemma FreshOk(w: World)
    requires Fresh(w)
    ensures WorldOk(w)
  {
    forall j
      ensures !Live(w.fs, j)
    {
    }
  }

  /** A create of an empty file, worked out. */
  lemma CreateIs(s: State, name: string, env: Env, i: nat, at: nat) returns (r: State)
    requires env.root && env.inodeMemory && env.map1 && env.map2 && 0 < |name| <= NAME_MAX && env.dirWrite
    requires i < |s.freeMap| && !s.freeMap[i] && forall m :: 0 <= m < i ==> s.freeMap[m]
    requires at < |s.entries| && at == SlotAt(s.entries, env.slot) && Lookup(Scanned(s.entries, env.scan), name).None?
    ensures r == s.(freeMap := s.freeMap[i := true], inodes := s.inodes[i := Extent(0, 0)],
                    entries := s.entries[at := Entry(true, name, i)])
    ensures Create(s, name, 0, env) == (r, true)
  {
    r := s.(freeMap := s.freeMap[i := true], inodes := s.inodes[i := Extent(0, 0)],
            entries := s.entries[at := Entry(true, name, i)]);
    var fm := s.freeMap[i := true];
    FirstSector(s.freeMap, i);
    NoSectors(fm);
    CreateGiven(s, name, 0, env, i, 0, fm, fm);
  }

  /** A create that goes through, given what the allocations found. */
  lemma CreateGiven(s: State, name: string, size: nat, env: Env, i: nat, st: nat, fm1: seq<bool>, fm2: seq<bool>)
    requires env.root && env.inodeMemory && |name| <= NAME_MAX && !AddFails(s, name, env)
    requires Allocate(s.freeMap, 1, env.map1) == Some(i) && i < |s.freeMap| && fm1 == Filled(s.freeMap, i, 1, true)
    requires Allocate(fm1, BytesToSectors(size), env.map2) == Some(st) && st + BytesToSectors(size) <= |fm1|
    requires fm2 == Filled(fm1, st, BytesToSectors(size), true)
    ensures Create(s, name, size, env) ==
      (s.(freeMap := fm2, inodes := s.inodes[i := Extent(st, size)],
          entries := s.entries[SlotAt(s.entries, env.slot) := Entry(true, name, i)]), true)
  {
  }

  lemma FirstSector(bits: seq<bool>, i: nat)
    requires i < |bits| && !bits[i] && forall m :: 0 <= m < i ==> bits[m]
    ensures FirstFit(bits, 0, 1, false) == Some(i) && Filled(bits, i, 1, true) == bits[i := true]
  {
    assert Run(bits, i, 1, false);
    forall m | 0 <= m < i ensures !Run(bits, m, 1, false) { assert bits[m]; }
    FirstFitUnique(bits, 0, 1, false, i);
  }

  lemma NoSectors(bits: seq<bool>)
    ensures FirstFit(bits, 0, 0, false) == Some(0) && Filled(bits, 0, 0, true) == bits
  {
    assert Run(bits, 0, 0, false);
    FirstFitUnique(bits, 0, 0, false, 0);
  }

  const Complete: Env := Env(true, true, true, true, true, true, 2, 2)
  const Short: Env := Env(true, true, true, true, true, true, 2, 1)

  /** A formatted disk of four sectors whose directory has room for two names. */
  const Blank: State := State([true, false, false, false], map[], [Entry(false, "", 0), Entry(false, "", 0)], [], {0})

  lemma FirstFile(s: State) returns (r: State)
    requires s == Blank
    ensures Create(s, "a", 0, Complete) == (r, true)
    ensures r == State([true, true, false, false], map[1 := Extent(0, 0)], [Entry(true, "a", 1), Entry(false, "", 0)], [], {0})
  {
    FreeEntryUnique(s.entries, 0);
    r := CreateIs(s, "a", Complete, 1, 0);
  }

  lemma SecondFile(s: State) returns (r: State)
    requires s == State([true, true, false, false], map[1 := Extent(0, 0)], [Entry(true, "a", 1), Entry(false, "", 0)], [], {0})
    ensures Create(s, "b", 0, Complete) == (r, true)
    ensures r == State([true, true, true, false], map[1 := Extent(0, 0), 2 := Extent(0, 0)],
                       [Entry(true, "a", 1), Entry(true, "b", 2)], [], {0})
  {
    FreeEntryUnique(s.entries, 1);
    r := CreateIs(s, "b", Complete, 2, 1);
  }

  /** The third create, with the second file open. */
  lemma ThirdFile(s: State) returns (r: State)
    requires s.freeMap == [true, true, true, false] && s.entries == [Entry(true, "a", 1), Entry(true, "b", 2)]
    ensures Create(s, "c", 0, Short) == (r, true) && SlotAt(s.entries, Short.slot) == 1
    ensures SectorOf(s, "b") == Some(2) && SectorOf(r, "b").None?
  {
    FreeEntryUnique(Scanned(s.entries, 1), 1);
    r := CreateIs(s, "c", Short, 3, 1);
    LookupUnique(s.entries, "b", 1);
  }

  /** A run with a create whose scans are complete. */
  lemma CreateExtends(run: seq<World>, actions: seq<Action>, name: string, env: Env, r: State)
    returns (run': seq<World>, actions': seq<Action>)
    requires IsRun(run, actions) && Create(run[|actions|].fs, name, 0, env) == (r, true)
    ensures run' == run + [World(r, run[|actions|].handles)] && actions' == actions + [DoCreate(name, 0, env)]
    ensures IsRun(run', actions')
    ensures SoundThrough(run, |actions|) && !Clashes(run[|actions|].fs, name, env) ==> SoundThrough(run', |actions'|)
  {
    var w := World(r, run[|actions|].handles);
    run', actions' := RunExtends(run, actions, DoCreate(name, 0, env), w);
    if SoundThrough(run, |actions|) && !Clashes(run[|actions|].fs, name, env) {
      StepOkIff(run[|actions|], DoCreate(name, 0, env));
      SoundExtends(run, w, |actions|);
    }
  }

  lemma {:induction false} SoundSame(run: seq<World>, w: World, i: nat)
    requires i < |run|
    ensures SoundThrough(run + [w], i) == SoundThrough(run, i)
  {
    if i > 0 { SoundSame(run, w, i - 1); }
  }

  lemma SoundExtends(run: seq<World>, w: World, n: nat)
    requires |run| == n + 1 && SoundThrough(run, n) && WorldOk(w)
    ensures SoundThrough(run + [w], n + 1)
  {
    SoundSame(run, w, n);
  }

  /** Two files fill the directory, and the second is opened. */
  lemma FullDirectory() returns (run: seq<World>, actions: seq<Action>)
    ensures IsRun(run, actions) && |actions| == 3 && SoundThrough(run, 3)
    ensures run[3].fs == State([true, true, true, false], map[1 := Extent(0, 0), 2 := Extent(0, 0)],
                               [Entry(true, "a", 1), Entry(true, "b", 2)], [OpenInode(2, 1, false, Extent(0, 0))], {0})
  {
    var w := World(Blank, multiset{});
    FreshOk(w);
    run, actions := [w], [];
    var s1 := FirstFile(Blank);
    FullScansDoNotClash(Blank, "a", 0, Complete);
    run, actions := CreateExtends(run, actions, "a", Complete, s1);
    var s2 := SecondFile(s1);
    FullScansDoNotClash(s1, "b", 0, Complete);
    run, actions := CreateExtends(run, actions, "b", Complete, s2);
    run, actions := OpenExtends(run, actions);
  }

  lemma OpenExtends(run: seq<World>, actions: seq<Action>) returns (run': seq<World>, actions': seq<Action>)
    requires IsRun(run, actions) && |actions| == 2 && SoundThrough(run, 2) && run[2].handles == multiset{}
    requires run[2].fs == State([true, true, true, false], map[1 := Extent(0, 0), 2 := Extent(0, 0)],
                                [Entry(true, "a", 1), Entry(true, "b", 2)], [], {0})
    ensures IsRun(run', actions') && |actions'| == 3 && SoundThrough(run', 3)
    ensures run'[3].fs == run[2].fs.(open := [OpenInode(2, 1, false, Extent(0, 0))])
  {
    var s := OpenSecond(run[2].fs, Complete);
    var w := World(s, multiset{2});
    OpenStep(run[2], s);
    StepOkIff(run[2], DoOpen("b", Complete));
    SoundExtends(run, w, 2);
    run', actions' := RunExtends(run, actions, DoOpen("b", Complete), w);
  }

  /** A third create whose scan for a slot is cut short after one entry takes the second's place, and the open file has
      lost its name without being removed. */
  lemma ClashRun() returns (run: seq<World>, actions: seq<Action>)
    ensures IsRun(run, actions) && |actions| == 4 && SoundThrough(run, 3) && !WorldOk(run[4])
    ensures SectorOf(run[3].fs, "b") == Some(2) && SectorOf(run[4].fs, "b").None?
  {
    var before, done := FullDirectory();
    var r := ThirdFile(before[3].fs);
    ThirdClashes(before[3], Short);
    run, actions := CreateExtends(before, done, "c", Short, r);
    SoundSame(before, run[4], 3);
    assert StepsTo(run, actions, 3);
  }

  lemma ThirdClashes(w: World, env: Env)
    requires WorldOk(w) && Create(w.fs, "c", 0, env).1 && SlotAt(w.fs.entries, env.slot) == 1
    requires |w.fs.entries| == 2 && w.fs.entries[1] == Entry(true, "b", 2) && |w.fs.open| == 1 && w.fs.open[0].sector == 2
    ensures !WorldOk(Step(w, DoCreate("c", 0, env)))
  {
    assert FindOpen(w.fs.open, 2) == Some(0);
    assert NamesOpen(w.fs, 1);
    StepOkIff(w, DoCreate("c", 0, env));
  }

  lemma OpenStep(w: World, r: State)
    requires Open(w.fs, "b", Complete) == (r, Some(2)) && w.handles == multiset{}
    ensures Step(w, DoOpen("b", Complete)) == World(r, multiset{2})
  {
  }

  lemma OpenSecond(s: State, env: Env) returns (r: State)
    requires env.root && env.inodeMemory && env.fileMemory && env.scan == 2 && |s.entries| == 2 && s.open == []
    requires s.entries[1] == Entry(true, "b", 2) && s.entries[0].name == "a" && 2 in s.inodes
    ensures Open(s, "b", env) == (r, Some(2)) && r == s.(open := [OpenInode(2, 1, false, s.inodes[2])])
  {
    LookupUnique(s.entries, "b", 1);
    ScanFinds(s.entries, "b", 2);
    r := s.(open := [OpenInode(2, 1, false, s.inodes[2])]);
    assert [OpenInode(2, 1, false, s.inodes[2])] + s.open == r.open;
  }

  lemma RunExtends(run: seq<World>, actions: seq<Action>, a: Action, w: World)
    returns (run': seq<World>, actions': seq<Action>)
    requires IsRun(run, actions) && Enabled(run[|actions|], a) && w == Step(run[|actions|], a)
    ensures run' == run + [w] && actions' == actions + [a] && IsRun(run', actions')
  {
    run', actions' := run + [w], actions + [a];
    forall i: nat | i < |actions'| ensures StepsTo(run', actions', i) {
      if i < |actions| { assert StepsTo(run, actions, i); }
    }
  }

  /** A removed file's sectors come free in exactly one step: the close of its last handle. */
  lemma ReleasedAtLastClose(w: World, sector: nat, a: nat)
    requires WorldOk(w) && Enabled(w, DoClose(sector)) && Owns(w.fs, sector, a) && !Named(w.fs, sector)
    ensures var r := Step(w, DoClose(sector)).fs;
            a < |r.freeMap| && (r.freeMap[a] <==> w.handles[sector] > 1)
  {
    var k := FindOpen(w.fs.open, sector).value;
    assert OpenOk(w.fs, k) && LiveOk(w.fs, sector);
    assert IsOpen(w.fs, sector);
    assert Openers(w.fs, sector) == w.handles[sector];
    InodeCloseOk(w.fs, k);
  }

  // ---------------------------------------------------------------------------------
  // The file system, updated in place

  class FileSys {
    var freeMap: seq<bool>
    var inodes: map<nat, Extent>
    var entries: seq<Entry>
    var open: seq<OpenInode>
    ghost const reserved: set<nat>

    ghost function Value(): State
      reads this
    {
      State(freeMap, inodes, entries, open, reserved)
    }

    ghost predicate Valid()
      reads this
    {
      Inv(Value())
    }

    /** lookup.  Only the first `readable` entries can be read: each read needs a bounce buffer, and a short one ends the
        scan. */
    method Find(name: string, readable: nat) returns (r: Option<nat>)
      ensures r == Lookup(Scanned(entries, readable), name)
    {
      ghost var scanned := Scanned(entries, readable);
      var k := 0;
      while k < |entries| && k < readable
        invariant 0 <= k <= |scanned|
        invariant forall m :: 0 <= m < k ==> !(scanned[m].inUse && scanned[m].name == name)
      {
        if entries[k].inUse && entries[k].name == name {
          LookupUnique(scanned, name, k);
          return Some(k);
        }
        k := k + 1;
      }
      return None;
    }

    /** The scan of dir_add for a slot. */
    method FindSlot(readable: nat) returns (at: nat)
      ensures at == SlotAt(entries, readable)
    {
      ghost var scanned := Scanned(entries, readable);
      at := 0;
      while at < |entries| && at < readable && entries[at].inUse
        invariant at <= |scanned| && forall m :: 0 <= m < at ==> scanned[m].inUse
      {
        at := at + 1;
      }
      FreeEntryUnique(scanned, at);
    }

    /** free_map_allocate; `written` is whether the free map file could be written. */
    method TakeSectors(cnt: nat, written: bool) returns (r: Option<nat>)
      modifies this`freeMap
      ensures r == Allocate(old(freeMap), cnt, written)
      ensures r.Some? <==> written && exists i: nat :: Run(old(freeMap), i, cnt, false)
      ensures r.Some? ==> Run(old(freeMap), r.value, cnt, false) && forall j: nat :: j < r.value ==> !Run(old(freeMap), j, cnt, false)
      ensures freeMap == if r.Some? then Filled(old(freeMap), r.value, cnt, true) else old(freeMap)
    {
      r := FirstFit(freeMap, 0, cnt, false);
      if r.Some? {
        freeMap := Filled(freeMap, r.value, cnt, true);
        if !written {
          freeMap := Filled(freeMap, r.value, cnt, false);
          assert Run(old(freeMap), r.value, cnt, false);
          assert freeMap == old(freeMap);
          r := None;
        }
      }
    }

    /** inode_open; the new inode goes to the front of the list. */
    method AcquireInode(sector: nat, memory: bool) returns (ok: bool)
      requires sector in inodes
      modifies this`open
      ensures (Value(), ok) == InodeOpen(old(Value()), sector, memory)
    {
      var k := 0;
      while k < |open|
        invariant 0 <= k <= |open| && open == old(open)
        invariant forall m :: 0 <= m < k ==> open[m].sector != sector
      {
        if open[k].sector == sector {
          FindOpenFirst(open, sector, k);
          open := open[k := open[k].(openCnt := open[k].openCnt + 1)];
          return true;
        }
        k := k + 1;
      }
      if !memory {
        return false;
      }
      open := [OpenInode(sector, 1, false, inodes[sector])] + open;
      return true;
    }

    /** inode_close of the k-th in-memory inode. */
    method CloseInode(k: nat)
      requires Valid() && k < |open|
      modifies this
      ensures Value() == InodeClose(old(Value()), k) && Valid()
    {
      ghost var s := Value();
      InodeCloseOk(s, k);
      assert OpenOk(s, k) && LiveOk(s, open[k].sector);
      assert IsOpen(s, open[k].sector);
      var o := open[k];
      if o.openCnt > 1 {
        open := open[k := o.(openCnt := o.openCnt - 1)];
      } else {
        open := open[..k] + open[k + 1..];
        if o.removed {
          freeMap := Filled(freeMap, o.sector, 1, false);
          freeMap := Filled(freeMap, o.data.start, o.data.Count(), false);
        }
      }
    }

    /** filesys_create. */
    method CreateFile(name: string, size: nat, env: Env) returns (ok: bool)
      requires Valid()
      modifies this
      ensures (Value(), ok) == Create(old(Value()), name, size, env)
      ensures Valid() <==> !(ok && Clashes(old(Value()), name, env))
    {
      CreateOkIff(Value(), name, size, env);
      if !env.root || |name| > NAME_MAX {
        return false;
      }
      var i := TakeSectors(1, env.map1);
      if i.None? {
        return false;
      }
      if !env.inodeMemory {
        freeMap := Filled(freeMap, i.value, 1, false);
        return false;
      }
      var st := TakeSectors(BytesToSectors(size), env.map2);
      if st.None? {
        freeMap := Filled(freeMap, i.value, 1, false);
        return false;
      }
      inodes := inodes[i.value := Extent(st.value, size)];
      var found := Find(name, env.scan);
      var at := FindSlot(env.slot);
      if name == "" || found.Some? || at >= |entries| || !env.dirWrite {
        freeMap := Filled(freeMap, i.value, 1, false);
        return false;
      }
      entries := entries[at := Entry(true, name, i.value)];
      return true;
    }

    /** filesys_open. */
    method OpenFile(name: string, env: Env) returns (h: Option<nat>)
      requires Valid()
      modifies this
      ensures (Value(), h) == Open(old(Value()), name, env) && Valid()
    {
      ghost var s := Value();
      OpenOkStep(s, name, env);
      var e := Find(name, env.scan);
      ScanFinds(entries, name, env.scan);
      if !env.root || e.None? {
        return None;
      }
      var sector := entries[e.value].sector;
      NamedByLookup(s, name);
      InodeOpenOk(s, sector, env.inodeMemory);
      assert LiveOk(s, sector);
      var ok := AcquireInode(sector, env.inodeMemory);
      if !ok {
        return None;
      }
      if !env.fileMemory {
        var k := FindOpen(open, sector);
        CloseInode(k.value);
        return None;
      }
      return Some(sector);
    }

    /** filesys_remove. */
    method RemoveFile(name: string, env: Env) returns (ok: bool)
      requires Valid()
      modifies this
      ensures (Value(), ok) == Remove(old(Value()), name, env) && Valid()
    {
      ghost var s := Value();
      RemoveOkStep(s, name, env);
      var e := Find(name, env.scan);
      ScanFinds(entries, name, env.scan);
      if !env.root || e.None? {
        return false;
      }
      var sector := entries[e.value].sector;
      NamedByLookup(s, name);
      InodeOpenOk(s, sector, env.inodeMemory);
      assert LiveOk(s, sector);
      ok := AcquireInode(sector, env.inodeMemory);
      if !ok {
        return false;
      }
      var k := FindOpen(open, sector).value;
      if !env.dirWrite {
        CloseInode(k);
        return false;
      }
      EraseEntry(e.value, k);
      return true;
    }

    /** The end of dir_remove: the entry is cleared, the inode marked and closed. */
    method EraseEntry(e: nat, k: nat)
      requires Valid() && e < |entries| && entries[e].inUse && k < |open| && open[k].sector == entries[e].sector
      modifies this
      ensures Valid()
      ensures var s := old(Value());
        Value() == InodeClose(s.(entries := s.entries[e := s.entries[e].(inUse := false)],
                                 open := s.open[k := s.open[k].(removed := true)]), k)
    {
      UnnameOk(Value(), e, k);
      entries := entries[e := entries[e].(inUse := false)];
      open := open[k := open[k].(removed := true)];
      CloseInode(k);
    }
  }

  lemma {:induction false} FreeEntryUnique(entries: seq<Entry>, k: nat)
    requires k <= |entries| && (forall m :: 0 <= m < k ==> entries[m].inUse) && (k < |entries| ==> !entries[k].inUse)
    ensures FreeEntry(entries) == if k < |entries| then Some(k) else None
    decreases |entries|
  {
    if k < |entries| {
      var n := |entries| - 1;
      FreeEntryUnique(entries[..n], k);
    }
  }

  lemma FindOpenFirst(open: seq<OpenInode>, sector: nat, k: nat)
    requires k < |open| && open[k].sector == sector && forall m :: 0 <= m < k ==> open[m].sector != sector
    ensures FindOpen(open, sector) == Some(k)
  {
    if k > 0 {
      FindOpenFirst(open[1..], sector, k - 1);
    }
  }
}
