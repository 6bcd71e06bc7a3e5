/**
 When filesys_create of pintos-kaist/filesys/filesys.c succeeds and what it then has written, in terms of the free map
 and the directory alone.
 */
module FileCalls {
  import opened Wrappers
  import opened Bitmaps
  import opened InodeIO
  import opened FileSystem

  /** The lowest free sector. */
  predicate FirstFree(bits: seq<bool>, i: nat) {
    i < |bits| && !bits[i] && forall m :: 0 <= m < i ==> bits[m]
  }

  /** `n` free sectors from `st` on, none of them `i`. */
  predicate FreeBeside(bits: seq<bool>, i: nat, st: nat, n: nat) {
    st + n <= |bits| && forall a :: st <= a < st + n ==> !bits[a] && a != i
  }

  /** The sectors that a file of this size needs. */
  function Sectors(size: nat): nat { (size + 511) / 512 }

  /** There is a free sector, and besides the first one a run that holds the data. */
  ghost predicate HasRoom(bits: seq<bool>, n: nat) {
    exists i: nat, st: nat :: FirstFree(bits, i) && FreeBeside(bits, i, st, n)
  }

  /** free_map_allocate gives a run exactly when one is free and the map can be written, and then the first. */
  lemma AllocateIff(bits: seq<bool>, cnt: nat, written: bool)
    ensures var r := Allocate(bits, cnt, written);
      && (r.Some? <==> written && exists i: nat :: FreeBeside(bits, |bits|, i, cnt))
      && (r.Some? ==> FreeBeside(bits, |bits|, r.value, cnt) && forall j: nat :: j < r.value ==> !FreeBeside(bits, |bits|, j, cnt))
  {
    forall j: nat ensures FreeBeside(bits, |bits|, j, cnt) <==> Run(bits, j, cnt, false) {}
  }

  lemma FirstFreeIs(bits: seq<bool>, i: nat)
    ensures FirstFit(bits, 0, 1, false) == Some(i) <==> FirstFree(bits, i)
  {
    if FirstFree(bits, i) { FirstSector(bits, i); }
    var r := FirstFit(bits, 0, 1, false);
    if r.Some? {
      assert Run(bits, r.value, 1, false) && !bits[r.value];
      forall m | 0 <= m < r.value ensures bits[m] { assert !Run(bits, m, 1, false); }
    }
  }

  lemma BesideIs(bits: seq<bool>, i: nat, st: nat, n: nat)
    requires FirstFree(bits, i)
    ensures FreeBeside(bits, i, st, n) <==> Run(Filled(bits, i, 1, true), st, n, false)
  {
    var fm := Filled(bits, i, 1, true);
    if Run(fm, st, n, false) {
      forall a | st <= a < st + n ensures !bits[a] && a != i { assert fm[a] == false; }
    }
  }

  /** Enough sectors are found exactly when there is room. */
  lemma RoomIff(bits: seq<bool>, n: nat)
    ensures HasRoom(bits, n) <==>
      var i := FirstFit(bits, 0, 1, false);
      i.Some? && FirstFit(Filled(bits, i.value, 1, true), 0, n, false).Some?
  {
    var i := FirstFit(bits, 0, 1, false);
    if i.Some? {
      FirstFreeIs(bits, i.value);
      var st := FirstFit(Filled(bits, i.value, 1, true), 0, n, false);
      if st.Some? { BesideIs(bits, i.value, st.value, n); }
    }
    if HasRoom(bits, n) {
      var j: nat, st: nat :| FirstFree(bits, j) && FreeBeside(bits, j, st, n);
      FirstFreeIs(bits, j);
      BesideIs(bits, j, st, n);
    }
  }

  /** The slot that dir_add writes is inside the directory. */
  lemma SlotInside(entries: seq<Entry>, slot: nat)
    ensures SlotAt(entries, slot) < |entries| <==> slot < |entries| || exists k :: 0 <= k < |entries| && !entries[k].inUse
  {
    var scanned := Scanned(entries, slot);
    if FreeEntry(scanned).Some? { assert !entries[FreeEntry(scanned).value].inUse; }
  }

  /** A create succeeds if and only if the directory can be opened, the name is neither empty nor longer than 14, there are
      sectors for inode and data and the map can be written for both, there is memory, lookup does not read the
      name, dir_add ends its scan inside the directory, and its write goes through. */
  lemma CreateSucceedsIff(s: State, name: string, size: nat, env: Env)
    ensures Create(s, name, size, env).1 <==>
      && env.root && 0 < |name| <= 14
      && env.map1 && env.map2 && env.inodeMemory && HasRoom(s.freeMap, Sectors(size))
      && (forall k :: 0 <= k < |s.entries| && k < env.scan ==> !(s.entries[k].inUse && s.entries[k].name == name))
      && (env.slot < |s.entries| || exists k :: 0 <= k < |s.entries| && !s.entries[k].inUse)
      && env.dirWrite
  {
    RoomIff(s.freeMap, Sectors(size));
    SlotInside(s.entries, env.slot);
    NotRead(s.entries, name, env.scan);
  }

  lemma NotRead(entries: seq<Entry>, name: string, scan: nat)
    ensures Lookup(Scanned(entries, scan), name).None? <==>
      forall k :: 0 <= k < |entries| && k < scan ==> !(entries[k].inUse && entries[k].name == name)
  {
    var scanned := Scanned(entries, scan);
    if Lookup(scanned, name).None? {
      forall k | 0 <= k < |entries| && k < scan ensures !(entries[k].inUse && entries[k].name == name) {
        assert scanned[k] == entries[k];
      }
    }
  }

  /** What a successful create has written: the first free sector is the inode's, the first run beside it the data's, just
      those become marked, and one entry is written, the first free one that could be read or the one behind. */
  lemma CreateDoes(s: State, name: string, size: nat, env: Env) returns (i: nat, st: nat, at: nat)
    requires Create(s, name, size, env).1
    ensures FirstFree(s.freeMap, i) && FreeBeside(s.freeMap, i, st, Sectors(size))
    ensures forall j: nat :: j < st ==> !FreeBeside(s.freeMap, i, j, Sectors(size))
    ensures at < |s.entries| && at <= env.slot && (at < env.slot ==> !s.entries[at].inUse)
    ensures forall k :: 0 <= k < at ==> s.entries[k].inUse
    ensures var r := Create(s, name, size, env).0;
      && r.entries == s.entries[at := Entry(true, name, i)] && r.inodes == s.inodes[i := Extent(st, size)]
      && r.open == s.open && r.reserved == s.reserved && |r.freeMap| == |s.freeMap|
      && forall a :: 0 <= a < |s.freeMap| ==>
           (r.freeMap[a] <==> s.freeMap[a] || a == i || st <= a < st + Sectors(size))
  {
    i := FirstFit(s.freeMap, 0, 1, false).value;
    FirstFreeIs(s.freeMap, i);
    st := FirstFit(Filled(s.freeMap, i, 1, true), 0, Sectors(size), false).value;
    forall j: nat ensures FreeBeside(s.freeMap, i, j, Sectors(size)) <==> Run(Filled(s.freeMap, i, 1, true), j, Sectors(size), false) {
      BesideIs(s.freeMap, i, j, Sectors(size));
    }
    at := SlotAt(s.entries, env.slot);
    FirstSlot(s.entries, env.slot);
  }

  lemma FirstSlot(entries: seq<Entry>, slot: nat)
    ensures var at := SlotAt(entries, slot);
      && at <= |entries| && at <= slot && (at < slot && at < |entries| ==> !entries[at].inUse)
      && forall k :: 0 <= k < at ==> entries[k].inUse
  {
    var scanned := Scanned(entries, slot);
    FirstUnused(scanned);
    forall k | 0 <= k < SlotAt(entries, slot) ensures entries[k].inUse { assert scanned[k] == entries[k]; }
  }

  lemma {:induction false} FirstUnused(entries: seq<Entry>)
    ensures var k := FreeEntry(entries); forall m :: 0 <= m < (if k.Some? then k.value else |entries|) ==> entries[m].inUse
  {
    if entries != [] {
      var n := |entries| - 1;
      FirstUnused(entries[..n]);
      assert forall m :: 0 <= m < n ==> entries[..n][m] == entries[m];
    }
  }

  /** What a failed create leaves behind: the sectors of the data, if it came as far as the directory, and nothing else on
      the free map.  The names and the open files are as before. */
  lemma FailedCreateLeaves(s: State, name: string, size: nat, env: Env)
    requires !Create(s, name, size, env).1
    ensures var r := Create(s, name, size, env).0;
      r.entries == s.entries && r.open == s.open && r.reserved == s.reserved && |r.freeMap| == |s.freeMap|
    ensures var r := Create(s, name, size, env).0;
      if env.root && |name| <= 14 && env.map1 && env.map2 && env.inodeMemory && HasRoom(s.freeMap, Sectors(size))
      then exists i: nat, st: nat :: LeftMarked(s.freeMap, r.freeMap, i, st, Sectors(size))
      else r == s
  {
    RoomIff(s.freeMap, Sectors(size));
    FailedCreate(s, name, size, env);
    if ReachesDirectory(s, name, size, env) { var i, st := Leaked(s, name, size, env); }
  }

  /** `r` has the run at `st` marked besides; it does not contain the first free sector `i`, which is free again. */
  ghost predicate LeftMarked(bits: seq<bool>, r: seq<bool>, i: nat, st: nat, n: nat) {
    && FirstFree(bits, i) && FreeBeside(bits, i, st, n) && |r| == |bits|
    && forall a :: 0 <= a < |bits| ==> (r[a] <==> bits[a] || st <= a < st + n)
  }

  lemma Leaked(s: State, name: string, size: nat, env: Env) returns (i: nat, st: nat)
    requires !Create(s, name, size, env).1 && ReachesDirectory(s, name, size, env)
    ensures LeftMarked(s.freeMap, Create(s, name, size, env).0.freeMap, i, st, Sectors(size))
  {
    i := FirstFit(s.freeMap, 0, 1, false).value;
    FirstFreeIs(s.freeMap, i);
    st := FirstFit(Filled(s.freeMap, i, 1, true), 0, Sectors(size), false).value;
    BesideIs(s.freeMap, i, st, Sectors(size));
  }
}
