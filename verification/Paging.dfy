/**
 Demand paging with FIFO eviction to swap, for the anonymous pages of one address space:
 pintos-kaist/vm/vm.c, pintos-kaist/vm/anon.c and pintos-kaist/vm/uninit.c.

 The abstract value of the whole machinery is `Mem`, a plain map from virtual page to bytes.
 Faults, evictions and swapping are shown to leave it alone.
 */
module Paging {
  import opened Wrappers
  import opened Bitmaps

  const PGSIZE: nat := 4096
  const SECTOR: nat := 512
  const PER_SLOT: nat := 8  // sectors in a page

  type Bytes = seq<int>

  /** An uninit page remembers what its initializer will write, if it has one; an anonymous page
      remembers its swap slot while it is swapped out. */
  datatype Kind = Uninit(init: Option<Bytes>) | Anon(slot: Option<nat>)

  datatype Page = Page(kind: Kind, frame: Option<nat>, writable: bool)

  /** A frame of the frame table: a page of the user pool, and the virtual page in it. */
  datatype Frame = Frame(kva: nat, va: nat)

  /** `n` consecutive sectors read one after the other. */
  function Sectors(disk: seq<Bytes>, base: nat, n: nat): (r: Bytes)
    requires base + n <= |disk|
  {
    if n == 0 then [] else Sectors(disk, base, n - 1) + disk[base + n - 1]
  }

  lemma {:induction false} SectorsLength(disk: seq<Bytes>, base: nat, n: nat)
    requires base + n <= |disk| && forall i :: 0 <= i < |disk| ==> |disk[i]| == SECTOR
    ensures |Sectors(disk, base, n)| == n * SECTOR
  {
    if n > 0 {
      SectorsLength(disk, base, n - 1);
    }
  }

  lemma {:induction false} SectorsFrame(disk: seq<Bytes>, disk': seq<Bytes>, base: nat, n: nat)
    requires |disk| == |disk'| && base + n <= |disk|
    requires forall i :: base <= i < base + n ==> disk[i] == disk'[i]
    ensures Sectors(disk, base, n) == Sectors(disk', base, n)
  {
    if n > 0 {
      SectorsFrame(disk, disk', base, n - 1);
    }
  }

  /** The disk after a page has been written to swap slot `i`, its first `n` sectors that is. */
  function WriteSlot(disk: seq<Bytes>, i: nat, page: Bytes, n: nat): (r: seq<Bytes>)
    requires PER_SLOT * (i + 1) <= |disk| && |page| == PGSIZE && n <= PER_SLOT
    ensures |r| == |disk|
  {
    if n == 0 then disk else
      WriteSlot(disk, i, page, n - 1)[PER_SLOT * i + n - 1 := page[SECTOR * (n - 1)..SECTOR * n]]
  }

  lemma {:induction false} WriteSlotEffect(disk: seq<Bytes>, i: nat, page: Bytes, n: nat)
    requires PER_SLOT * (i + 1) <= |disk| && |page| == PGSIZE && n <= PER_SLOT
    ensures var r := WriteSlot(disk, i, page, n);
            && (forall j :: 0 <= j < |disk| && !(PER_SLOT * i <= j < PER_SLOT * i + n) ==> r[j] == disk[j])
            && (forall j :: PER_SLOT * i <= j < PER_SLOT * i + n ==> |r[j]| == SECTOR)
            && Sectors(r, PER_SLOT * i, n) == page[..SECTOR * n]
  {
    if n > 0 {
      WriteSlotEffect(disk, i, page, n - 1);
      var q, r := WriteSlot(disk, i, page, n - 1), WriteSlot(disk, i, page, n);
      SectorsFrame(q, r, PER_SLOT * i, n - 1);
      assert page[..SECTOR * n] == page[..SECTOR * (n - 1)] + page[SECTOR * (n - 1)..SECTOR * n];
    }
  }

  // ---------------------------------------------------------------------------------
  // State and invariant

  datatype State = State(
    spt: map<nat, Page>,       // supplemental page table
    frames: seq<Frame>,        // frame table, oldest first
    pool: seq<bool>,           // used_map of the user pool
    memory: seq<Bytes>,        // contents of the pool's pages
    mapped: map<nat, nat>,     // present entries of the page table
    swapTable: seq<bool>,
    disk: seq<Bytes>)          // the swap disk, sector by sector

  ghost predicate Shapes(s: State) {
    && |s.memory| == |s.pool|
    && PER_SLOT * |s.swapTable| <= |s.disk|
    && (forall k :: 0 <= k < |s.memory| ==> |s.memory[k]| == PGSIZE)
    && (forall j :: 0 <= j < |s.disk| ==> |s.disk[j]| == SECTOR)
  }

  ghost predicate FrameOk(s: State, i: nat)
    requires i < |s.frames|
  {
    var f := s.frames[i];
    && f.kva < |s.pool| && s.pool[f.kva]
    && f.va in s.spt && s.spt[f.va].frame == Some(f.kva) && s.spt[f.va].kind == Anon(None)
  }

  ghost predicate FramesOk(s: State) {
    && (forall i {:trigger FrameOk(s, i)} :: 0 <= i < |s.frames| ==> FrameOk(s, i))
    && DistinctKvas(s.frames)
  }

  ghost predicate DistinctKvas(frames: seq<Frame>) {
    forall i, j :: 0 <= i < j < |frames| ==> frames[i].kva != frames[j].kva
  }

  /** An uninit page has nothing yet; an anonymous one has exactly one of a frame and a slot. */
  ghost predicate PageOk(s: State, va: nat)
    requires va in s.spt
  {
    var p := s.spt[va];
    match p.kind
    case Uninit(init) => p.frame.None? && va !in s.mapped && (init.Some? ==> |init.value| == PGSIZE)
    case Anon(None) => p.frame.Some? && va in s.mapped && s.mapped[va] == p.frame.value
                       && Frame(p.frame.value, va) in s.frames
    case Anon(Some(i)) => p.frame.None? && va !in s.mapped && i < |s.swapTable| && s.swapTable[i]
  }

  /** Distinct pages have distinct slots. */
  ghost predicate SlotsDiffer(s: State, va: nat, vb: nat) {
    va in s.spt && vb in s.spt && va != vb && Swapped(s, va) && Swapped(s, vb) ==>
      s.spt[va].kind.slot != s.spt[vb].kind.slot
  }

  ghost predicate SlotOwned(s: State, i: nat)
    requires i < |s.swapTable|
  {
    s.swapTable[i] ==> exists va :: Owns(s, va, i)
  }

  /** The set bits of the swap table are exactly the distinct slots in use. */
  ghost predicate SlotsOk(s: State) {
    && (forall va, vb {:trigger SlotsDiffer(s, va, vb)} :: SlotsDiffer(s, va, vb))
    && (forall i {:trigger SlotOwned(s, i)} :: 0 <= i < |s.swapTable| ==> SlotOwned(s, i))
  }

  predicate Swapped(s: State, va: nat)
    requires va in s.spt
  {
    s.spt[va].kind.Anon? && s.spt[va].kind.slot.Some?
  }

  ghost predicate Owns(s: State, va: nat, i: nat) {
    va in s.spt && s.spt[va].kind == Anon(Some(i))
  }

  ghost predicate InFrameTable(s: State, k: nat) {
    exists i :: 0 <= i < |s.frames| && s.frames[i].kva == k
  }

  /** Every used page of the pool is in the frame table, except one that a claim in progress
      may be holding. */
  ghost predicate PoolOk(s: State, held: Option<nat>) {
    && (forall k {:trigger InFrameTable(s, k)} ::
          0 <= k < |s.pool| && s.pool[k] && held != Some(k) ==> InFrameTable(s, k))
    && (held.Some? ==> held.value < |s.pool| && s.pool[held.value] && !InFrameTable(s, held.value))
  }

  ghost predicate Inv(s: State, held: Option<nat>) {
    && Shapes(s) && FramesOk(s) && SlotsOk(s) && PoolOk(s, held)
    && (forall va {:trigger PageOk(s, va)} :: va in s.spt ==> PageOk(s, va))
    && (forall va {:trigger va in s.mapped} :: va in s.mapped ==> va in s.spt)
  }

  // ---------------------------------------------------------------------------------
  // The abstract memory

  predicate Defined(p: Page) {
    p.kind.Anon? || p.kind.init.Some?
  }

  ghost function Content(s: State, va: nat): Bytes
    requires va in s.spt
  {
    var p := s.spt[va];
    match p.kind
    case Uninit(init) => if init.Some? then init.value else []
    case Anon(None) => if p.frame.Some? && p.frame.value < |s.memory| then s.memory[p.frame.value] else []
    case Anon(Some(i)) => if PER_SLOT * (i + 1) <= |s.disk| then Sectors(s.disk, PER_SLOT * i, PER_SLOT) else []
  }

  /** The pages of the process, and which of them it may write. */
  function Rights(spt: map<nat, Page>): map<nat, bool> { map va | va in spt :: spt[va].writable }

  /** What the process sees: every page with defined contents, however it is stored. */
  ghost function Mem(s: State): map<nat, Bytes> {
    map va | va in s.spt && Defined(s.spt[va]) :: Content(s, va)
  }

  // ---------------------------------------------------------------------------------
  // Eviction

  /** What eviction does to the disk, in terms of slots. */
  ghost predicate SlotWritten(disk: seq<Bytes>, disk': seq<Bytes>, i: nat, page: Bytes) {
    && |disk'| == |disk| && PER_SLOT * (i + 1) <= |disk|
    && (forall j :: 0 <= j < |disk| ==> |disk'[j]| == SECTOR)
    && (forall j :: 0 <= j < |disk| && !(PER_SLOT * i <= j < PER_SLOT * (i + 1)) ==> disk'[j] == disk[j])
    && Sectors(disk', PER_SLOT * i, PER_SLOT) == page
  }

  lemma WriteSlotWrites(disk: seq<Bytes>, i: nat, page: Bytes)
    requires PER_SLOT * (i + 1) <= |disk| && |page| == PGSIZE
    requires forall j :: 0 <= j < |disk| ==> |disk[j]| == SECTOR
    ensures SlotWritten(disk, WriteSlot(disk, i, page, PER_SLOT), i, page)
  {
    WriteSlotEffect(disk, i, page, PER_SLOT);
    assert page[..SECTOR * PER_SLOT] == page;
  }

  /** `s` after its oldest frame went to slot `i`, given what that made of the disk. */
  function EvictedTo(s: State, i: nat, disk: seq<Bytes>): (r: State)
    requires s.frames != [] && s.frames[0].va in s.spt && i < |s.swapTable|
  {
    var f := s.frames[0];
    State(s.spt[f.va := s.spt[f.va].(kind := Anon(Some(i)), frame := None)],
          s.frames[1..], s.pool, s.memory, s.mapped - {f.va}, s.swapTable[i := true], disk)
  }

  ghost predicate Evicted(s: State, r: State, i: nat) {
    && s.frames != [] && s.frames[0].va in s.spt && s.frames[0].kva < |s.memory|
    && i < |s.swapTable| && !s.swapTable[i]
    && r == EvictedTo(s, i, r.disk)
    && SlotWritten(s.disk, r.disk, i, s.memory[s.frames[0].kva])
  }

  lemma EvictKeepsFrames(s: State, r: State, i: nat)
    requires Inv(s, None) && Evicted(s, r, i)
    ensures FramesOk(r)
  {
    assert FrameOk(s, 0);
    forall m | 0 <= m < |r.frames|
      ensures FrameOk(r, m)
    {
      assert FrameOk(s, m + 1) && r.frames[m] == s.frames[m + 1];
      assert s.frames[m + 1].kva != s.frames[0].kva;
    }
  }

  lemma EvictKeepsResident(s: State, r: State, i: nat, va: nat)
    requires Inv(s, None) && Evicted(s, r, i) && va in s.spt && s.spt[va].kind == Anon(None) && va != s.frames[0].va
    ensures PageOk(r, va) && Content(r, va) == Content(s, va)
  {
    assert PageOk(s, va);
    var g := Frame(s.spt[va].frame.value, va);
    var m :| 0 <= m < |s.frames| && s.frames[m] == g;
    assert r.frames[m - 1] == g;
  }

  lemma EvictKeepsSwapped(s: State, r: State, i: nat, va: nat)
    requires Inv(s, None) && Evicted(s, r, i) && va in s.spt && Swapped(s, va)
    ensures PageOk(r, va) && Content(r, va) == Content(s, va)
  {
    assert PageOk(s, va) && FrameOk(s, 0);
    var j := s.spt[va].kind.slot.value;
    SlotsApart(i, j);
    SectorsFrame(s.disk, r.disk, PER_SLOT * j, PER_SLOT);
  }

  lemma SlotsApart(i: nat, j: nat)
    requires i != j
    ensures PER_SLOT * (j + 1) <= PER_SLOT * i || PER_SLOT * (i + 1) <= PER_SLOT * j
  {
  }

  lemma EvictKeepsPage(s: State, r: State, i: nat, va: nat)
    requires Inv(s, None) && Evicted(s, r, i) && va in s.spt
    ensures PageOk(r, va) && Content(r, va) == Content(s, va)
  {
    assert PageOk(s, va) && FrameOk(s, 0);
    if Swapped(s, va) {
      EvictKeepsSwapped(s, r, i, va);
    } else if s.spt[va].kind == Anon(None) && va != s.frames[0].va {
      EvictKeepsResident(s, r, i, va);
    }
  }

  lemma EvictKeepsSlots(s: State, r: State, i: nat)
    requires Inv(s, None) && Evicted(s, r, i)
    ensures SlotsOk(r)
  {
    var f := s.frames[0];
    assert FrameOk(s, 0);
    forall j | 0 <= j < |r.swapTable|
      ensures SlotOwned(r, j)
    {
      if j == i {
        assert Owns(r, f.va, i);
      } else if r.swapTable[j] {
        assert SlotOwned(s, j);
        var va :| Owns(s, va, j);
        assert Owns(r, va, j);
      }
    }
    forall va, vb
      ensures SlotsDiffer(r, va, vb)
    {
      if va in r.spt && vb in r.spt && va != vb && Swapped(r, va) && Swapped(r, vb) {
        assert SlotsDiffer(s, va, vb) && PageOk(s, va) && PageOk(s, vb);
      }
    }
  }

  lemma EvictKeepsPool(s: State, r: State, i: nat)
    requires Inv(s, None) && Evicted(s, r, i)
    ensures PoolOk(r, Some(s.frames[0].kva))
  {
    var f := s.frames[0];
    assert FrameOk(s, 0);
    forall k | 0 <= k < |r.pool| && r.pool[k] && k != f.kva
      ensures InFrameTable(r, k)
    {
      assert InFrameTable(s, k);
      var m :| 0 <= m < |s.frames| && s.frames[m].kva == k;
      assert r.frames[m - 1] == s.frames[m];
    }
    assert forall m :: 0 <= m < |r.frames| ==> r.frames[m] == s.frames[m + 1];
  }

  /** Eviction moves a page's bytes to swap and hands over its frame; no page changes. */
  lemma EvictOk(s: State, r: State, i: nat)
    requires Inv(s, None) && Evicted(s, r, i)
    ensures Inv(r, Some(s.frames[0].kva)) && Mem(r) == Mem(s)
  {
    EvictKeepsFrames(s, r, i);
    EvictKeepsSlots(s, r, i);
    EvictKeepsPool(s, r, i);
    forall va | va in r.spt
      ensures PageOk(r, va) && Content(r, va) == Content(s, va)
    {
      EvictKeepsPage(s, r, i, va);
    }
    SameMem(s, r);
  }

  lemma SameMem(s: State, r: State)
    requires s.spt.Keys == r.spt.Keys
    requires forall va :: va in s.spt ==> Defined(s.spt[va]) == Defined(r.spt[va]) && Content(s, va) == Content(r, va)
    ensures Mem(s) == Mem(r)
  {
  }

  // ---------------------------------------------------------------------------------
  // Claiming a page

  function Zeros(): (r: Bytes)
    ensures |r| == PGSIZE
  {
    seq(PGSIZE, _ => 0)
  }

  /** A free page of the pool is taken and zeroed. */
  lemma PallocOk(s: State, k: nat)
    requires Inv(s, None) && k < |s.pool| && !s.pool[k]
    ensures var r := s.(pool := s.pool[k := true], memory := s.memory[k := Zeros()]);
            Inv(r, Some(k)) && Mem(r) == Mem(s)
  {
    var r := s.(pool := s.pool[k := true], memory := s.memory[k := Zeros()]);
    forall m | 0 <= m < |s.frames|
      ensures s.frames[m].kva != k && FrameOk(r, m)
    {
      assert FrameOk(s, m);
    }
    forall va | va in r.spt
      ensures PageOk(r, va) && Content(r, va) == Content(s, va)
    {
      assert PageOk(s, va);
    }
    forall k' | 0 <= k' < |r.pool| && r.pool[k'] && k' != k
      ensures InFrameTable(r, k')
    {
      assert InFrameTable(s, k');
    }
    SameSlots(s, r);
    SameMem(s, r);
  }

  lemma SameSlots(s: State, r: State)
    requires SlotsOk(s) && r.spt == s.spt && r.swapTable == s.swapTable
    ensures SlotsOk(r)
  {
    forall i | 0 <= i < |r.swapTable|
      ensures SlotOwned(r, i)
    {
      assert SlotOwned(s, i);
      if s.swapTable[i] {
        var va :| Owns(s, va, i);
        assert Owns(r, va, i);
      }
    }
    forall va, vb
      ensures SlotsDiffer(r, va, vb)
    {
      assert SlotsDiffer(s, va, vb);
    }
  }

  /** The bytes that a page gets when it is claimed into frame `kva`. */
  ghost function Incoming(s: State, va: nat, kva: nat): Bytes
    requires va in s.spt && kva < |s.memory|
  {
    if Defined(s.spt[va]) then Content(s, va) else s.memory[kva]
  }

  function FreeSlot(s: State, va: nat): seq<bool>
    requires va in s.spt
  {
    if Swapped(s, va) && s.spt[va].kind.slot.value < |s.swapTable|
    then s.swapTable[s.spt[va].kind.slot.value := false] else s.swapTable
  }

  /** `r` is `s` after page `va`, not resident before, came into the held frame `kva`. */
  ghost predicate Installed(s: State, r: State, va: nat, kva: nat) {
    && va in s.spt && kva < |s.memory| && s.spt[va].frame.None?
    && r == s.(frames := s.frames + [Frame(kva, va)],
               spt := s.spt[va := s.spt[va].(kind := Anon(None), frame := Some(kva))],
               mapped := s.mapped[va := kva],
               memory := s.memory[kva := Incoming(s, va, kva)],
               swapTable := FreeSlot(s, va))
  }

  lemma ContentSize(s: State, va: nat)
    requires Shapes(s) && FramesOk(s) && va in s.spt && PageOk(s, va) && Defined(s.spt[va])
    ensures |Content(s, va)| == PGSIZE
  {
    if Swapped(s, va) {
      var i := s.spt[va].kind.slot.value;
      assert PER_SLOT * (i + 1) <= |s.disk|;
      SectorsLength(s.disk, PER_SLOT * i, PER_SLOT);
    } else if s.spt[va].kind.Anon? {
      var m :| 0 <= m < |s.frames| && s.frames[m] == Frame(s.spt[va].frame.value, va);
      assert FrameOk(s, m);
    }
  }

  lemma InstallKeepsFrames(s: State, r: State, va: nat, kva: nat)
    requires Inv(s, Some(kva)) && Installed(s, r, va, kva)
    ensures Shapes(r) && FramesOk(r)
  {
    assert PageOk(s, va);
    if Defined(s.spt[va]) {
      ContentSize(s, va);
    }
    forall m | 0 <= m < |r.frames|
      ensures FrameOk(r, m)
      ensures m < |s.frames| ==> r.frames[m] == s.frames[m] && s.frames[m].kva != kva
    {
      if m < |s.frames| {
        assert FrameOk(s, m);
      }
    }
  }

  lemma InstallKeepsPool(s: State, r: State, va: nat, kva: nat)
    requires PoolOk(s, Some(kva)) && Installed(s, r, va, kva)
    ensures PoolOk(r, None)
  {
    forall k | 0 <= k < |r.pool| && r.pool[k]
      ensures InFrameTable(r, k)
    {
      if k == kva {
        assert r.frames[|s.frames|].kva == k;
      } else {
        assert InFrameTable(s, k);
        var m :| 0 <= m < |s.frames| && s.frames[m].kva == k;
        assert r.frames[m].kva == k;
      }
    }
  }

  lemma InstallKeepsSlots(s: State, r: State, va: nat, kva: nat)
    requires Inv(s, Some(kva)) && Installed(s, r, va, kva)
    ensures SlotsOk(r)
  {
    assert PageOk(s, va);
    forall i | 0 <= i < |r.swapTable|
      ensures SlotOwned(r, i)
    {
      assert SlotOwned(s, i);
      if r.swapTable[i] {
        var vb :| Owns(s, vb, i);
        assert Owns(r, vb, i);
      }
    }
    forall va', vb
      ensures SlotsDiffer(r, va', vb)
    {
      assert SlotsDiffer(s, va', vb);
    }
  }

  lemma InstallKeepsPage(s: State, r: State, va: nat, kva: nat, vb: nat)
    requires Inv(s, Some(kva)) && Installed(s, r, va, kva) && vb in s.spt
    ensures PageOk(r, vb)
    ensures Content(r, vb) == if vb == va then Incoming(s, va, kva) else Content(s, vb)
  {
    assert PageOk(s, vb) && PageOk(s, va) && SlotsDiffer(s, va, vb);
    if vb == va {
      assert r.frames[|s.frames|] == Frame(kva, va);
    } else if s.spt[vb].kind == Anon(None) {
      var m :| 0 <= m < |s.frames| && s.frames[m] == Frame(s.spt[vb].frame.value, vb);
      assert r.frames[m] == s.frames[m] && s.frames[m].kva != kva;
    }
  }

  /** Claiming completes the invariant; a page that had contents keeps them. */
  lemma InstallOk(s: State, r: State, va: nat, kva: nat)
    requires Inv(s, Some(kva)) && Installed(s, r, va, kva)
    ensures Inv(r, None)
    ensures Mem(r) == Mem(s)[va := Incoming(s, va, kva)]
    ensures Defined(s.spt[va]) ==> Mem(r) == Mem(s)
  {
    InstallKeepsFrames(s, r, va, kva);
    InstallKeepsPool(s, r, va, kva);
    InstallKeepsSlots(s, r, va, kva);
    forall vb | vb in r.spt
      ensures PageOk(r, vb)
      ensures Content(r, vb) == if vb == va then Incoming(s, va, kva) else Content(s, vb)
    {
      InstallKeepsPage(s, r, va, kva, vb);
    }
    InstallMem(s, r, va, Incoming(s, va, kva));
  }

  lemma InstallMem(s: State, r: State, va: nat, b: Bytes)
    requires va in s.spt && r.spt.Keys == s.spt.Keys && Defined(r.spt[va])
    requires forall vb :: vb in s.spt && vb != va ==> r.spt[vb] == s.spt[vb]
    requires forall vb :: vb in r.spt ==> Content(r, vb) == if vb == va then b else Content(s, vb)
    requires Defined(s.spt[va]) ==> b == Content(s, va)
    ensures Mem(r) == Mem(s)[va := b]
    ensures Defined(s.spt[va]) ==> Mem(r) == Mem(s)
  {
    assert forall vb :: vb in Mem(r) <==> vb in Mem(s) || vb == va;
  }

  // ---------------------------------------------------------------------------------
  // Running out: a claim panics when it finds neither a free page nor a slot for a victim

  /** No page of the pool is free, and the assertion that there is a victim, or a slot for it, fails. */
  predicate Exhausted(s: State) { false !in s.pool && (s.pool == [] || false !in s.swapTable) }

  /** An access to `va` panics. */
  predicate Stuck(s: State, va: nat) { va in s.spt && va !in s.mapped && Exhausted(s) }

  function Used(bits: seq<bool>): set<nat> { set i: nat | i < |bits| && bits[i] }

  lemma {:induction false} UsedCount(bits: seq<bool>)
    ensures |Used(bits)| <= |bits| && (|Used(bits)| == |bits| <==> false !in bits)
  {
    if bits != [] {
      var n := |bits| - 1;
      UsedCount(bits[..n]);
      assert Used(bits) == Used(bits[..n]) + if bits[n] then {n} else {};
      assert bits == bits[..n] + [bits[n]];
    }
  }

  predicate Injective(m: map<nat, nat>) { forall a, b :: a in m && b in m && a != b ==> m[a] != m[b] }

  lemma {:induction false} InjectiveCount(m: map<nat, nat>)
    requires Injective(m)
    ensures |m.Keys| == |m.Values|
    decreases |m|
  {
    if k :| k in m {
      var rest := m - {k};
      InjectiveCount(rest);
      assert m.Keys == rest.Keys + {k};
      assert m.Values == rest.Values + {m[k]} by {
        forall v | v in m.Values ensures v in rest.Values + {m[k]} {
          var a :| a in m && m[a] == v;
          assert a != k ==> rest[a] == v;
        }
      }
    } else {
      assert m.Keys == {} && m.Values == {};
    }
  }

  /** The frames of the resident pages, and the slots of the swapped ones. */
  function FrameMap(s: State): map<nat, nat> {
    map va | va in s.spt && s.spt[va].kind == Anon(None) && s.spt[va].frame.Some? :: s.spt[va].frame.value
  }

  function SlotMap(s: State): map<nat, nat> { map va | va in s.spt && Swapped(s, va) :: s.spt[va].kind.slot.value }

  lemma FrameMapOk(s: State)
    requires Inv(s, None)
    ensures Injective(FrameMap(s)) && FrameMap(s).Values == Used(s.pool)
  {
    var m := FrameMap(s);
    forall va, vb | va in m && vb in m && va != vb ensures m[va] != m[vb] {
      assert PageOk(s, va) && PageOk(s, vb);
      FramesApart(s, va, vb);
    }
    forall k ensures k in m.Values <==> k in Used(s.pool) {
      if k in m.Values {
        var va :| va in m && m[va] == k;
        assert PageOk(s, va);
        var i :| 0 <= i < |s.frames| && s.frames[i] == Frame(k, va);
        assert FrameOk(s, i);
      }
      if k in Used(s.pool) {
        assert InFrameTable(s, k);
        var i :| 0 <= i < |s.frames| && s.frames[i].kva == k;
        assert FrameOk(s, i);
        assert m[s.frames[i].va] == k;
      }
    }
  }

  lemma SlotMapOk(s: State)
    requires Inv(s, None)
    ensures Injective(SlotMap(s)) && SlotMap(s).Values == Used(s.swapTable)
  {
    var m := SlotMap(s);
    forall va, vb | va in m && vb in m && va != vb ensures m[va] != m[vb] {
      assert SlotsDiffer(s, va, vb);
    }
    forall i ensures i in m.Values <==> i in Used(s.swapTable) {
      if i in m.Values {
        var va :| va in m && m[va] == i;
        assert PageOk(s, va);
      }
      if i in Used(s.swapTable) {
        assert SlotOwned(s, i);
        var va :| Owns(s, va, i);
        assert m[va] == i;
      }
    }
  }

  /** The pages that were claimed at some time. */
  function Claimed(s: State): set<nat> { set va | va in s.spt && s.spt[va].kind.Anon? }

  lemma ClaimedCount(s: State)
    requires Inv(s, None)
    ensures |Claimed(s)| == |Used(s.pool)| + |Used(s.swapTable)|
  {
    FrameMapOk(s);
    SlotMapOk(s);
    InjectiveCount(FrameMap(s));
    InjectiveCount(SlotMap(s));
    assert Claimed(s) == FrameMap(s).Keys + SlotMap(s).Keys by {
      forall va | va in Claimed(s) ensures va in FrameMap(s).Keys + SlotMap(s).Keys {
        assert PageOk(s, va);
      }
    }
    assert FrameMap(s).Keys !! SlotMap(s).Keys;
  }

  /** Everything is taken exactly when the pages claimed so far are as many as the pool and the swap disk hold. */
  lemma ExhaustedIff(s: State)
    requires Inv(s, None) && s.pool != []
    ensures |Claimed(s)| <= |s.pool| + |s.swapTable|
    ensures Exhausted(s) <==> |Claimed(s)| == |s.pool| + |s.swapTable|
  {
    ClaimedCount(s);
    UsedCount(s.pool);
    UsedCount(s.swapTable);
  }

  /** With fewer pages than that in the address space, eviction finds a slot. */
  lemma SlotForVictim(s: State)
    requires Inv(s, None) && s.pool != [] && |s.spt| < |s.pool| + |s.swapTable|
    ensures !Exhausted(s)
  {
    ExhaustedIff(s);
    Smaller(Claimed(s), s.spt.Keys);
  }

  lemma Smaller(a: set<nat>, b: set<nat>)
    requires a <= b
    ensures |a| <= |b|
  {
    assert b == a + (b - a);
  }

  lemma FullPoolHasFrames(s: State)
    requires Inv(s, None) && false !in s.pool
    ensures s.frames == [] <==> s.pool == []
  {
    if s.pool != [] { assert s.pool[0] && InFrameTable(s, 0); }
    if s.frames != [] { assert FrameOk(s, 0); }
  }

  // ---------------------------------------------------------------------------------
  // The machinery, updated in place

  class Vm {
    var spt: map<nat, Page>
    var frames: seq<Frame>
    var pool: seq<bool>
    var memory: seq<Bytes>
    var mapped: map<nat, nat>
    var swapTable: seq<bool>
    var disk: seq<Bytes>

    ghost function Value(): State
      reads this
    {
      State(spt, frames, pool, memory, mapped, swapTable, disk)
    }

    ghost predicate Valid()
      reads this
    {
      Inv(Value(), None)
    }

    /** vm_alloc_page_with_initializer for an anonymous page; fails if the page exists. */
    method AllocPage(va: nat, init: Option<Bytes>, writable: bool) returns (ok: bool)
      requires Valid() && (init.Some? ==> |init.value| == PGSIZE)
      modifies this
      ensures Valid()
      ensures ok <==> va !in old(spt)
      ensures spt == if ok then old(spt)[va := Page(Uninit(init), None, writable)] else old(spt)
      ensures |pool| == |old(pool)| && |swapTable| == |old(swapTable)|
      ensures Mem(Value()) == if ok && init.Some? then Mem(old(Value()))[va := init.value] else Mem(old(Value()))
    {
      if va in spt {
        return false;
      }
      ghost var s := Value();
      spt := spt[va := Page(Uninit(init), None, writable)];
      AllocOk(s, Value(), va, init);
      return true;
    }

    /** The sector loop of anon_swap_out. */
    method WriteToSwap(slot: nat, page: Bytes)
      requires PER_SLOT * (slot + 1) <= |disk| && |page| == PGSIZE
      modifies this`disk
      ensures disk == WriteSlot(old(disk), slot, page, PER_SLOT)
    {
      var i := 0;
      while i < PER_SLOT
        invariant 0 <= i <= PER_SLOT
        invariant disk == WriteSlot(old(disk), slot, page, i)
      {
        disk := disk[PER_SLOT * slot + i := page[SECTOR * i..SECTOR * (i + 1)]];
        i := i + 1;
      }
    }

    /** The sector loop of anon_swap_in. */
    method ReadFromSwap(slot: nat) returns (page: Bytes)
      requires PER_SLOT * (slot + 1) <= |disk|
      ensures page == Sectors(disk, PER_SLOT * slot, PER_SLOT)
    {
      page := [];
      var i := 0;
      while i < PER_SLOT
        invariant 0 <= i <= PER_SLOT
        invariant page == Sectors(disk, PER_SLOT * slot, i)
      {
        page := page + disk[PER_SLOT * slot + i];
        i := i + 1;
      }
    }

    /** vm_evict_frame: the oldest frame's page goes to the first free slot.  `None` is a failed assertion: there is no
        victim, or no slot. */
    method EvictFrame() returns (kva: Option<nat>)
      requires Valid()
      modifies this
      ensures kva.None? <==> old(frames) == [] || false !in old(swapTable)
      ensures kva.None? ==> Value() == old(Value())
      ensures kva.Some? ==> kva.value == old(frames)[0].kva && frames == old(frames)[1..] && memory == old(memory)
      ensures kva.Some? ==> Inv(Value(), kva) && Mem(Value()) == Mem(old(Value()))
      ensures |pool| == |old(pool)| && |swapTable| == |old(swapTable)|
      ensures forall va :: va in spt && (old(frames) == [] || va != old(frames)[0].va) ==> va in old(spt) && spt[va] == old(spt)[va]
      ensures Rights(spt) == old(Rights(spt))
    {
      if frames == [] { return None; }
      FirstFreePage(swapTable);
      var slot := FirstFit(swapTable, 0, 1, false);
      if slot.None? { return None; }
      var k := SwapOut(slot.value);
      return Some(k);
    }

    /** anon_swap_out, and the unlinking of the victim. */
    method SwapOut(slot: nat) returns (kva: nat)
      requires Valid() && frames != [] && FirstFit(swapTable, 0, 1, false) == Some(slot)
      modifies this
      ensures kva == old(frames)[0].kva && frames == old(frames)[1..] && memory == old(memory)
      ensures Inv(Value(), Some(kva)) && Mem(Value()) == Mem(old(Value()))
      ensures spt.Keys == old(spt.Keys) && |pool| == |old(pool)| && |swapTable| == |old(swapTable)|
      ensures forall va :: va in spt && va != old(frames)[0].va ==> spt[va] == old(spt)[va]
      ensures Rights(spt) == old(Rights(spt))
    {
      ghost var s := Value();
      ghost var r := EvictResult(s);
      var victim := frames[0];
      kva := victim.kva;
      frames := frames[1..];
      swapTable := swapTable[slot := true];
      WriteToSwap(slot, memory[kva]);
      spt := spt[victim.va := spt[victim.va].(kind := Anon(Some(slot)), frame := None)];
      mapped := mapped - {victim.va};
      assert Value() == r;
    }

    /** vm_get_frame: a zeroed page of the pool, or else the frame of an evicted page; a panic exactly when pool and
        swap disk are both exhausted. */
    method GetFrame() returns (kva: Option<nat>, zeroed: bool)
      requires Valid()
      modifies this
      ensures kva.None? <==> Exhausted(old(Value()))
      ensures kva.None? ==> Value() == old(Value())
      ensures kva.Some? ==> Inv(Value(), kva) && Mem(Value()) == Mem(old(Value()))
      ensures zeroed <==> false in old(pool)
      ensures zeroed ==> kva.Some? && memory[kva.value] == Zeros() && spt == old(spt) && frames == old(frames)
      ensures kva.Some? && !zeroed ==> old(frames) != [] && kva.value == old(frames)[0].kva && memory == old(memory)
      ensures kva.Some? && !zeroed ==> frames == old(frames)[1..]
      ensures |pool| == |old(pool)| && |swapTable| == |old(swapTable)|
      ensures forall va :: va in spt && va in old(spt) && old(spt)[va].frame.None? ==> spt[va] == old(spt)[va]
      ensures Rights(spt) == old(Rights(spt))
    {
      ghost var s := Value();
      var free := FirstFit(pool, 0, 1, false);
      FirstFreePage(pool);
      zeroed := free.Some?;
      if zeroed {
        kva := free;
        PallocOk(s, kva.value);
        pool := pool[kva.value := true];
        memory := memory[kva.value := Zeros()];
      } else {
        FullPoolHasFrames(s);
        if frames != [] { assert FrameOk(s, 0); }
        kva := EvictFrame();
      }
    }

    /** vm_do_claim_page: links a frame, maps it, and swaps the page in. A page that has contents,
        swapped out or still to be initialised, keeps them; its frame is the youngest, and the oldest went if need be; one without an initializer starts as
        zeros if a pool page was free, and otherwise with what the evicted page left behind.  The kernel panics
        exactly when pool and swap disk are both exhausted. */
    method ClaimPage(va: nat) returns (ok: bool)
      requires Valid() && va in spt && spt[va].frame.None?
      modifies this
      ensures ok <==> !Exhausted(old(Value()))
      ensures !ok ==> Value() == old(Value())
      ensures Valid() && (ok ==> va in mapped) && Rights(spt) == old(Rights(spt))
      ensures |pool| == |old(pool)| && |swapTable| == |old(swapTable)|
      ensures ok ==> false in old(pool) || old(frames) != []
      ensures ok ==> frames == (if false in old(pool) then old(frames) else old(frames)[1..]) + [Frame(mapped[va], va)]
      ensures ok && Defined(old(spt)[va]) ==> Mem(Value()) == Mem(old(Value()))
      ensures !Defined(old(spt)[va]) && false in old(pool) ==> Mem(Value()) == Mem(old(Value()))[va := Zeros()]
      ensures ok && !Defined(old(spt)[va]) && false !in old(pool) ==>
                && old(frames) != [] && old(frames)[0].kva < |old(memory)|
                && Mem(Value()) == Mem(old(Value()))[va := old(memory)[old(frames)[0].kva]]
    {
      var kva, zeroed := GetFrame();
      if kva.None? { return false; }
      SameCount(old(spt), spt);
      Install(va, kva.value);
      return true;
    }

    /** Links the page and the frame, maps the page and fills the frame. */
    method Install(va: nat, kva: nat)
      requires Inv(Value(), Some(kva)) && va in spt && spt[va].frame.None?
      modifies this
      ensures Valid() && va in mapped && Rights(spt) == old(Rights(spt)) && |swapTable| == |old(swapTable)| && pool == old(pool)
      ensures mapped == old(mapped)[va := kva] && frames == old(frames) + [Frame(kva, va)]
      ensures Mem(Value()) == Mem(old(Value()))[va := Incoming(old(Value()), va, kva)]
      ensures Defined(old(spt)[va]) ==> Mem(Value()) == Mem(old(Value()))
    {
      ghost var r := ClaimResult(Value(), va, kva);
      frames := frames + [Frame(kva, va)];
      var page := spt[va];
      spt := spt[va := page.(frame := Some(kva))];
      mapped := mapped[va := kva];
      SwapIn(va, kva);
      assert Value() == r;
    }

    /** The page's swap_in operation: uninit_initialize or anon_swap_in. */
    method SwapIn(va: nat, kva: nat)
      requires va in spt && kva < |memory|
      requires Swapped(Value(), va) ==>
                 PER_SLOT * (spt[va].kind.slot.value + 1) <= |disk| && spt[va].kind.slot.value < |swapTable|
      modifies this`memory, this`swapTable, this`spt
      ensures swapTable == FreeSlot(old(Value()), va)
      ensures spt == old(spt)[va := old(spt)[va].(kind := Anon(None))]
      ensures memory == match old(spt)[va].kind
                        case Uninit(Some(b)) => old(memory)[kva := b]
                        case Anon(Some(i)) => old(memory)[kva := Sectors(disk, PER_SLOT * i, PER_SLOT)]
                        case _ => old(memory)
    {
      match spt[va].kind
      case Uninit(init) =>
        spt := spt[va := spt[va].(kind := Anon(None))];
        if init.Some? {
          memory := memory[kva := init.value];
        }
      case Anon(Some(i)) =>
        var page := ReadFromSwap(i);
        memory := memory[kva := page];
        swapTable := swapTable[i := false];
        spt := spt[va := spt[va].(kind := Anon(None))];
      case Anon(None) =>
    }

    /** A user access: a missing page faults and is claimed first.  No page with contents changes; one without gets its
        first contents, `birth`. */
    method Touch(va: nat) returns (ok: bool, ghost birth: Bytes)
      requires Valid() && va in spt
      modifies this
      ensures ok <==> !Stuck(old(Value()), va)
      ensures !ok ==> Value() == old(Value())
      ensures Valid() && Rights(spt) == old(Rights(spt))
      ensures |pool| == |old(pool)| && |swapTable| == |old(swapTable)|
      ensures ok ==> BirthOk(Mem(old(Value())), birth) && Mem(Value()) == Born(Mem(old(Value())), va, birth)
      ensures ok ==> va in mapped && va in Mem(Value()) && |Mem(Value())[va]| == PGSIZE
    {
      ghost var s := Value();
      ok, birth := true, Zeros();
      if va !in mapped {
        UnmappedHasNoFrame(s, va);
        if !Exhausted(s) { birth := FirstContents(s); }
        ok := ClaimPage(va);
      }
      if ok { MappedContent(Value(), va); }
    }

    /** A load; refused (the process is killed) outside the address space.  `panic`: pool and swap disk were exhausted. */
    method Read(va: nat, ofs: nat) returns (v: Option<int>, panic: bool, ghost birth: Bytes)
      requires Valid() && ofs < PGSIZE
      modifies this
      ensures panic <==> Stuck(old(Value()), va)
      ensures panic ==> Value() == old(Value())
      ensures Valid() && Rights(spt) == old(Rights(spt))
      ensures |pool| == |old(pool)| && |swapTable| == |old(swapTable)|
      ensures !panic ==> BirthOk(Mem(old(Value())), birth)
      ensures !panic ==> Seen(Value()) == FlatLoad(Seen(old(Value())), va, ofs, birth).0
      ensures !panic ==> v == FlatLoad(Seen(old(Value())), va, ofs, birth).1
    {
      v, panic, birth := None, false, Zeros();
      if va in spt {
        var ok;
        ok, birth := Touch(va);
        if !ok { return None, true, birth; }
        MappedContent(Value(), va);
        v := Some(memory[mapped[va]][ofs]);
      }
    }

    /** A store; refused outside the address space and, once the page is there, on a read-only page. */
    method Write(va: nat, ofs: nat, v: int) returns (ok: bool, panic: bool, ghost birth: Bytes)
      requires Valid() && ofs < PGSIZE
      modifies this
      ensures panic <==> Stuck(old(Value()), va)
      ensures panic ==> Value() == old(Value())
      ensures Valid() && Rights(spt) == old(Rights(spt))
      ensures |pool| == |old(pool)| && |swapTable| == |old(swapTable)|
      ensures !panic ==> BirthOk(Mem(old(Value())), birth)
      ensures !panic ==> Seen(Value()) == FlatStore(Seen(old(Value())), va, ofs, v, birth).0
      ensures !panic ==> ok == FlatStore(Seen(old(Value())), va, ofs, v, birth).1
    {
      ok, panic, birth := false, false, Zeros();
      if va in spt {
        var there;
        there, birth := Touch(va);
        if !there { return false, true, birth; }
        ghost var s := Value();
        MappedContent(s, va);
        ok := spt[va].writable;
        if ok {
          WriteOk(s, va, ofs, v);
          memory := memory[mapped[va] := memory[mapped[va]][ofs := v]];
        }
      }
    }

    /** vm_dealloc_page and spt removal: gives back the page's swap slot or its frame. */
    method DestroyPage(va: nat)
      requires Valid() && va in spt
      modifies this
      ensures Valid() && spt == old(spt) - {va}
      ensures |pool| == |old(pool)| && |swapTable| == |old(swapTable)|
      ensures Mem(Value()) == Mem(old(Value())) - {va}
    {
      ghost var s := Value();
      ghost var r := DestroyResult(s, va);
      var page := spt[va];
      mapped := mapped - {va};
      if page.kind.Anon? && page.kind.slot.Some? {
        swapTable := swapTable[page.kind.slot.value := false];
      }
      if page.frame.Some? {
        frames := WithoutKva(frames, page.frame.value);
        pool := pool[page.frame.value := false];
      }
      spt := spt - {va};
      assert Value() == r;
    }

    /** One operation of the process.  `out` collects what loads return and whether stores were allowed. */
    method Perform(op: Op, out: seq<Answer>) returns (out': seq<Answer>, panic: bool, ghost birth: Bytes)
      requires Valid() && Proper(op)
      modifies this
      ensures panic <==> OpStuck(old(Value()), op)
      ensures panic ==> Value() == old(Value())
      ensures Valid() && |pool| == |old(pool)| && |swapTable| == |old(swapTable)|
      ensures !panic ==> spt.Keys == PagesAfter(old(spt.Keys), op) && BirthOk(Mem(old(Value())), birth)
      ensures !panic ==> (Seen(Value()), out') == FlatStep(Seen(old(Value())), out, op, birth)
    {
      panic := false;
      match op {
        case Alloc(_, _, _) => out', birth := PerformAlloc(op, out);
        case Destroy(_) => out', birth := PerformDestroy(op, out);
        case _ => out', panic, birth := PerformAccess(op, out);
      }
    }

    method PerformAlloc(op: Op, out: seq<Answer>) returns (out': seq<Answer>, ghost birth: Bytes)
      requires op.Alloc?
      requires Valid() && Proper(op)
      modifies this
      ensures Valid() && spt.Keys == PagesAfter(old(spt.Keys), op)
      ensures |pool| == |old(pool)| && |swapTable| == |old(swapTable)|
      ensures BirthOk(Mem(old(Value())), birth)
      ensures (Seen(Value()), out') == FlatStep(Seen(old(Value())), out, op, birth)
    {
      birth := Zeros();
      var ok := AllocPage(op.va, op.init, op.writable);
      out' := out + [Done(ok)];
      RightsOfPut(old(spt), op.va, Page(Uninit(op.init), None, op.writable));
    }

    method PerformDestroy(op: Op, out: seq<Answer>) returns (out': seq<Answer>, ghost birth: Bytes)
      requires op.Destroy?
      requires Valid() && Proper(op)
      modifies this
      ensures Valid() && spt.Keys == PagesAfter(old(spt.Keys), op)
      ensures |pool| == |old(pool)| && |swapTable| == |old(swapTable)|
      ensures BirthOk(Mem(old(Value())), birth)
      ensures (Seen(Value()), out') == FlatStep(Seen(old(Value())), out, op, birth)
    {
      birth := Zeros();
      var ok := op.va in spt;
      if ok {
        DestroyPage(op.va);
      }
      out' := out + [Done(ok)];
      RightsOfDrop(old(spt), op.va);
    }

    method PerformAccess(op: Op, out: seq<Answer>) returns (out': seq<Answer>, panic: bool, ghost birth: Bytes)
      requires op.Load? || op.Store?
      requires Valid() && Proper(op)
      modifies this
      ensures Valid() && spt.Keys == PagesAfter(old(spt.Keys), op)
      ensures |pool| == |old(pool)| && |swapTable| == |old(swapTable)|
      ensures panic <==> OpStuck(old(Value()), op)
      ensures panic ==> Value() == old(Value())
      ensures !panic ==> BirthOk(Mem(old(Value())), birth)
      ensures !panic ==> (Seen(Value()), out') == FlatStep(Seen(old(Value())), out, op, birth)
    {
      if op.Load? {
        var v;
        v, panic, birth := Read(op.va, op.ofs);
        out' := out + [if v.Some? then Loaded(v.value) else Done(false)];
      } else {
        var ok;
        ok, panic, birth := Write(op.va, op.ofs, op.v);
        out' := out + [Done(ok)];
      }
      SameCount(old(spt), spt);
    }

    /** A whole run: pages come and go, are read and written, evicted and brought back, and the process sees a plain map
        from pages to bytes.  `births` are the bytes of the pages without an initializer when they are first touched;
        each is zeros or the bytes of a page the process has.  The first `done` operations take place.  An operation that does
        not is an access to a page that is not there when pool and swap disk are exhausted, and there is none if the
        pages are always fewer than the two hold. */
    method Execute(ops: seq<Op>) returns (done: nat, out: seq<Answer>, ghost births: seq<Bytes>)
      requires Valid() && forall k :: 0 <= k < |ops| ==> Proper(ops[k])
      modifies this
      ensures Valid() && done <= |ops| && |births| == done
      ensures (Seen(Value()), out) == Flat(Seen(old(Value())), ops[..done], births)
      ensures BirthsOk(Seen(old(Value())), ops[..done], births)
      ensures done < |ops| ==> OpStuck(Value(), ops[done])
      ensures Fitting(old(spt.Keys), ops, |old(pool)|, |old(swapTable)|) ==> done == |ops|
    {
      out, births := [], [];
      done := 0;
      while done < |ops|
        invariant 0 <= done <= |ops| && |births| == done && Valid()
        invariant spt.Keys == PagesAfterAll(old(spt.Keys), ops[..done])
        invariant |pool| == |old(pool)| && |swapTable| == |old(swapTable)|
        invariant (Seen(Value()), out) == Flat(Seen(old(Value())), ops[..done], births)
        invariant BirthsOk(Seen(old(Value())), ops[..done], births)
      {
        ghost var birth;
        var out', panic;
        out', panic, birth := Perform(ops[done], out);
        if panic {
          FittingNotStuck(Value(), old(spt.Keys), ops, done);
          return;
        }
        PagesNext(old(spt.Keys), ops, done);
        FlatExtends(Seen(old(Value())), ops, births, done, birth);
        out, births, done := out', births + [birth], done + 1;
      }
    }
  }

  predicate OpStuck(s: State, op: Op) { (op.Load? || op.Store?) && Stuck(s, op.va) }

  predicate FitsAt(pages: set<nat>, ops: seq<Op>, frames: nat, slots: nat, n: nat)
    requires n <= |ops|
  {
    |PagesAfterAll(pages, ops[..n])| < frames + slots
  }

  /** There are pages in the pool, and at no time are the pages of the process as many as pool and swap disk hold. */
  ghost predicate Fitting(pages: set<nat>, ops: seq<Op>, frames: nat, slots: nat) {
    frames > 0 && forall n: nat {:trigger FitsAt(pages, ops, frames, slots, n)} :: n <= |ops| ==> FitsAt(pages, ops, frames, slots, n)
  }

  lemma FittingNotStuck(s: State, pages: set<nat>, ops: seq<Op>, n: nat)
    requires Inv(s, None) && n < |ops| && s.spt.Keys == PagesAfterAll(pages, ops[..n]) && Exhausted(s)
    ensures !Fitting(pages, ops, |s.pool|, |s.swapTable|)
  {
    SameKeys(s, PagesAfterAll(pages, ops[..n]));
    if s.pool != [] && FitsAt(pages, ops, |s.pool|, |s.swapTable|, n) { SlotForVictim(s); }
  }

  datatype Op =
    | Alloc(va: nat, init: Option<Bytes>, writable: bool)
    | Destroy(va: nat)
    | Load(va: nat, ofs: nat)
    | Store(va: nat, ofs: nat, v: int)

  datatype Answer = Loaded(v: int) | Done(ok: bool)

  predicate Proper(op: Op) {
    match op
    case Alloc(_, init, _) => init.Some? ==> |init.value| == PGSIZE
    case Destroy(_) => true
    case Load(_, ofs) => ofs < PGSIZE
    case Store(_, ofs, _) => ofs < PGSIZE
  }

  function PagesAfter(pages: set<nat>, op: Op): set<nat> {
    match op
    case Alloc(va, _, _) => pages + {va}
    case Destroy(va) => pages - {va}
    case _ => pages
  }

  function PagesAfterAll(pages: set<nat>, ops: seq<Op>): set<nat> {
    if ops == [] then pages else PagesAfter(PagesAfterAll(pages, ops[..|ops| - 1]), ops[|ops| - 1])
  }

  /** The address space as the process sees it: its pages with their rights, and the contents of those that have any. */
  datatype Space = Space(rights: map<nat, bool>, mem: map<nat, Bytes>)

  ghost function Seen(s: State): Space { Space(Rights(s.spt), Mem(s)) }

  function Born(mem: map<nat, Bytes>, va: nat, birth: Bytes): map<nat, Bytes> {
    if va in mem then mem else mem[va := birth]
  }

  /** A page without an initializer starts as zeros, or with what an evicted page left in its frame. */
  ghost predicate BirthOk(mem: map<nat, Bytes>, birth: Bytes) {
    |birth| == PGSIZE && (birth == Zeros() || exists va :: va in mem && mem[va] == birth)
  }

  function FlatLoad(w: Space, va: nat, ofs: nat, birth: Bytes): (Space, Option<int>) {
    if va !in w.rights then (w, None)
    else
      var m := Born(w.mem, va, birth);
      (w.(mem := m), if ofs < |m[va]| then Some(m[va][ofs]) else None)
  }

  function FlatStore(w: Space, va: nat, ofs: nat, v: int, birth: Bytes): (Space, bool) {
    if va !in w.rights then (w, false)
    else
      var m := Born(w.mem, va, birth);
      if w.rights[va] && ofs < |m[va]| then (w.(mem := m[va := m[va][ofs := v]]), true) else (w.(mem := m), false)
  }

  /** The same operations on memory that is never paged. */
  ghost function FlatStep(w: Space, out: seq<Answer>, op: Op, birth: Bytes): (Space, seq<Answer>) {
    match op
    case Alloc(va, init, writable) =>
      if va in w.rights then (w, out + [Done(false)])
      else (Space(w.rights[va := writable], if init.Some? then w.mem[va := init.value] else w.mem), out + [Done(true)])
    case Destroy(va) =>
      if va in w.rights then (Space(w.rights - {va}, w.mem - {va}), out + [Done(true)]) else (w, out + [Done(false)])
    case Load(va, ofs) =>
      var (w', v) := FlatLoad(w, va, ofs, birth);
      (w', out + [if v.Some? then Loaded(v.value) else Done(false)])
    case Store(va, ofs, v) =>
      var (w', ok) := FlatStore(w, va, ofs, v, birth);
      (w', out + [Done(ok)])
  }

  ghost function Flat(w: Space, ops: seq<Op>, births: seq<Bytes>): (Space, seq<Answer>)
    requires |births| == |ops|
  {
    if ops == [] then (w, []) else
      var n := |ops| - 1;
      var (u, out) := Flat(w, ops[..n], births[..n]);
      FlatStep(u, out, ops[n], births[n])
  }

  ghost predicate BirthsOk(w: Space, ops: seq<Op>, births: seq<Bytes>)
    requires |births| == |ops|
  {
    ops == [] ||
      (var n := |ops| - 1;
       BirthsOk(w, ops[..n], births[..n]) && BirthOk(Flat(w, ops[..n], births[..n]).0.mem, births[n]))
  }

  lemma FlatExtends(w: Space, ops: seq<Op>, births: seq<Bytes>, n: nat, birth: Bytes)
    requires n < |ops| && |births| == n && BirthsOk(w, ops[..n], births)
    ensures var (u, out) := Flat(w, ops[..n], births);
      Flat(w, ops[..n + 1], births + [birth]) == FlatStep(u, out, ops[n], birth) &&
      (BirthOk(u.mem, birth) ==> BirthsOk(w, ops[..n + 1], births + [birth]))
  {
    assert ops[..n + 1][..n] == ops[..n] && (births + [birth])[..n] == births;
  }

  lemma PagesNext(pages: set<nat>, ops: seq<Op>, n: nat)
    requires n < |ops|
    ensures PagesAfterAll(pages, ops[..n + 1]) == PagesAfter(PagesAfterAll(pages, ops[..n]), ops[n])
  {
    assert ops[..n + 1][..n] == ops[..n];
  }

  lemma RightsOfPut(spt: map<nat, Page>, va: nat, p: Page)
    ensures Rights(spt[va := p]) == Rights(spt)[va := p.writable]
  {
  }

  lemma RightsOfDrop(spt: map<nat, Page>, va: nat)
    ensures Rights(spt - {va}) == Rights(spt) - {va}
  {
  }

  lemma SameCount(a: map<nat, Page>, b: map<nat, Page>)
    requires Rights(a) == Rights(b)
    ensures a.Keys == b.Keys && |a| == |b|
  {
    assert Rights(a).Keys == a.Keys && Rights(b).Keys == b.Keys;
    assert |a.Keys| == |a| && |b.Keys| == |b|;
  }

  lemma SameKeys(s: State, pages: set<nat>)
    requires s.spt.Keys == pages
    ensures |s.spt| == |pages|
  {
    assert |s.spt.Keys| == |s.spt|;
  }

  /** What a page without an initializer starts with when it is claimed now. */
  lemma FirstContents(s: State) returns (b: Bytes)
    requires Inv(s, None) && !Exhausted(s)
    ensures BirthOk(Mem(s), b)
    ensures false in s.pool ==> b == Zeros()
    ensures false !in s.pool ==> s.frames != [] && s.frames[0].kva < |s.memory| && b == s.memory[s.frames[0].kva]
  {
    if false in s.pool {
      b := Zeros();
    } else {
      FirstFreePage(s.pool);
      FullPoolHasFrames(s);
      assert FrameOk(s, 0);
      var va := s.frames[0].va;
      assert PageOk(s, va);
      MappedContent(s, va);
      b := s.memory[s.frames[0].kva];
      assert Mem(s)[va] == b;
    }
  }

  lemma UnmappedHasNoFrame(s: State, va: nat)
    requires Inv(s, None) && va in s.spt && va !in s.mapped
    ensures s.spt[va].frame.None?
  {
    assert PageOk(s, va);
  }

  lemma MappedContent(s: State, va: nat)
    requires Inv(s, None) && va in s.mapped
    ensures va in s.spt && s.mapped[va] < |s.memory| && va in Mem(s) && Mem(s)[va] == s.memory[s.mapped[va]]
    ensures |Mem(s)[va]| == PGSIZE && Defined(s.spt[va])
  {
    assert PageOk(s, va);
    var m :| 0 <= m < |s.frames| && s.frames[m] == Frame(s.spt[va].frame.value, va);
    assert FrameOk(s, m);
  }

  lemma WriteOk(s: State, va: nat, ofs: nat, v: int)
    requires Inv(s, None) && va in s.mapped && s.mapped[va] < |s.memory| && va in Mem(s)
    requires Mem(s)[va] == s.memory[s.mapped[va]] && ofs < |Mem(s)[va]|
    ensures var r := s.(memory := s.memory[s.mapped[va] := s.memory[s.mapped[va]][ofs := v]]);
            Inv(r, None) && Mem(r) == Mem(s)[va := Mem(s)[va][ofs := v]]
  {
    var k := s.mapped[va];
    var r := s.(memory := s.memory[k := s.memory[k][ofs := v]]);
    forall m | 0 <= m < |r.frames|
      ensures FrameOk(r, m)
    {
      assert FrameOk(s, m);
    }
    forall j | 0 <= j < |r.pool| && r.pool[j]
      ensures InFrameTable(r, j)
    {
      assert InFrameTable(s, j);
    }
    SameSlots(s, r);
    forall vb | vb in r.spt
      ensures PageOk(r, vb)
      ensures Content(r, vb) == if vb == va then s.memory[k][ofs := v] else Content(s, vb)
    {
      WriteKeepsPage(s, va, ofs, v, vb);
    }
    assert Mem(r).Keys == Mem(s).Keys;
  }

  lemma WriteKeepsPage(s: State, va: nat, ofs: nat, v: int, vb: nat)
    requires Inv(s, None) && va in s.mapped && s.mapped[va] < |s.memory| && va in Mem(s) && vb in s.spt
    requires Mem(s)[va] == s.memory[s.mapped[va]] && ofs < |Mem(s)[va]|
    ensures var k := s.mapped[va];
            var r := s.(memory := s.memory[k := s.memory[k][ofs := v]]);
            PageOk(r, vb) && Content(r, vb) == if vb == va then s.memory[k][ofs := v] else Content(s, vb)
  {
    assert PageOk(s, vb) && PageOk(s, va);
    if vb != va && s.spt[vb].kind == Anon(None) {
      FramesApart(s, va, vb);
    }
  }

  lemma FramesApart(s: State, va: nat, vb: nat)
    requires FramesOk(s) && va in s.spt && vb in s.spt && va != vb
    requires PageOk(s, va) && PageOk(s, vb) && s.spt[va].kind == Anon(None) && s.spt[vb].kind == Anon(None)
    ensures s.spt[va].frame != s.spt[vb].frame
  {
    var m :| 0 <= m < |s.frames| && s.frames[m] == Frame(s.spt[va].frame.value, va);
    var n :| 0 <= n < |s.frames| && s.frames[n] == Frame(s.spt[vb].frame.value, vb);
    assert m != n;
  }

  lemma FirstFreePage(pool: seq<bool>)
    ensures FirstFit(pool, 0, 1, false).Some? <==> false in pool
    ensures FirstFit(pool, 0, 1, false).Some? ==>
              FirstFit(pool, 0, 1, false).value < |pool| && !pool[FirstFit(pool, 0, 1, false).value]
  {
    var r := FirstFit(pool, 0, 1, false);
    if r.Some? {
      assert Run(pool, r.value, 1, false) && pool[r.value] == false;
    } else {
      forall i | 0 <= i < |pool|
        ensures pool[i]
      {
        assert !Run(pool, i, 1, false);
      }
    }
  }

  lemma ClaimResult(s: State, va: nat, kva: nat) returns (r: State)
    requires Inv(s, Some(kva)) && va in s.spt && s.spt[va].frame.None?
    ensures Installed(s, r, va, kva) && Inv(r, None)
    ensures Mem(r) == Mem(s)[va := Incoming(s, va, kva)]
    ensures |Incoming(s, va, kva)| == PGSIZE
    ensures Defined(s.spt[va]) ==> Mem(r) == Mem(s)
    ensures !(s.spt[va].kind == Anon(None))
    ensures Swapped(s, va) ==>
              PER_SLOT * (s.spt[va].kind.slot.value + 1) <= |s.disk| && s.spt[va].kind.slot.value < |s.swapTable|
  {
    assert PageOk(s, va);
    if Defined(s.spt[va]) {
      ContentSize(s, va);
    }
    r := s.(frames := s.frames + [Frame(kva, va)],
            spt := s.spt[va := s.spt[va].(kind := Anon(None), frame := Some(kva))],
            mapped := s.mapped[va := kva],
            memory := s.memory[kva := Incoming(s, va, kva)],
            swapTable := FreeSlot(s, va));
    InstallOk(s, r, va, kva);
  }

  /** Everything that eviction needs and yields, worked out from the state before it. */
  lemma EvictResult(s: State) returns (r: State)
    requires Inv(s, None) && s.frames != [] && FirstFit(s.swapTable, 0, 1, false).Some?
    ensures var f, slot := s.frames[0], FirstFit(s.swapTable, 0, 1, false).value;
            && f.va in s.spt && f.kva < |s.memory| && |s.memory[f.kva]| == PGSIZE
            && slot < |s.swapTable| && PER_SLOT * (slot + 1) <= |s.disk|
            && r == EvictedTo(s, slot, WriteSlot(s.disk, slot, s.memory[f.kva], PER_SLOT))
            && Inv(r, Some(f.kva)) && Mem(r) == Mem(s)
  {
    var f, slot := s.frames[0], FirstFit(s.swapTable, 0, 1, false).value;
    assert FrameOk(s, 0);
    assert Run(s.swapTable, slot, 1, false);
    WriteSlotWrites(s.disk, slot, s.memory[f.kva]);
    r := EvictedTo(s, slot, WriteSlot(s.disk, slot, s.memory[f.kva], PER_SLOT));
    EvictOk(s, r, slot);
  }

  lemma AllocOk(s: State, r: State, va: nat, init: Option<Bytes>)
    requires Inv(s, None) && va !in s.spt && (init.Some? ==> |init.value| == PGSIZE)
    requires exists w :: r == s.(spt := s.spt[va := Page(Uninit(init), None, w)])
    ensures Inv(r, None)
    ensures Mem(r) == if init.Some? then Mem(s)[va := init.value] else Mem(s)
  {
    AllocKeepsSlots(s, r, va);
    forall vb | vb in r.spt
      ensures PageOk(r, vb) && (vb != va ==> Content(r, vb) == Content(s, vb))
    {
      assert vb != va ==> PageOk(s, vb);
    }
    forall m | 0 <= m < |r.frames|
      ensures FrameOk(r, m)
    {
      assert FrameOk(s, m);
    }
    forall k | 0 <= k < |r.pool| && r.pool[k]
      ensures InFrameTable(r, k)
    {
      assert InFrameTable(s, k);
    }
    AllocMem(s, r, va);
  }

  lemma AllocMem(s: State, r: State, va: nat)
    requires va !in s.spt && va in r.spt && r.spt == s.spt[va := r.spt[va]] && r.spt[va].kind.Uninit?
    requires forall vb :: vb in s.spt ==> Content(r, vb) == Content(s, vb)
    ensures Mem(r) == if Defined(r.spt[va]) then Mem(s)[va := r.spt[va].kind.init.value] else Mem(s)
  {
  }

  lemma AllocKeepsSlots(s: State, r: State, va: nat)
    requires SlotsOk(s) && va !in s.spt && va in r.spt && r.spt == s.spt[va := r.spt[va]]
    requires r.spt[va].kind.Uninit? && r.swapTable == s.swapTable
    ensures SlotsOk(r)
  {
    forall i | 0 <= i < |r.swapTable|
      ensures SlotOwned(r, i)
    {
      assert SlotOwned(s, i);
      if s.swapTable[i] {
        var vb :| Owns(s, vb, i);
        assert Owns(r, vb, i);
      }
    }
    forall va', vb
      ensures SlotsDiffer(r, va', vb)
    {
      assert SlotsDiffer(s, va', vb);
    }
  }

  // ---------------------------------------------------------------------------------
  // Destroying a page

  function WithoutKva(frames: seq<Frame>, kva: nat): (r: seq<Frame>) {
    if frames == [] then []
    else if frames[0].kva == kva then WithoutKva(frames[1..], kva)
    else [frames[0]] + WithoutKva(frames[1..], kva)
  }

  lemma {:induction false} WithoutKvaMembers(frames: seq<Frame>, kva: nat)
    ensures forall f :: f in WithoutKva(frames, kva) <==> f in frames && f.kva != kva
  {
    if frames != [] {
      WithoutKvaMembers(frames[1..], kva);
      assert forall f :: f in frames <==> f == frames[0] || f in frames[1..];
    }
  }

  lemma {:induction false} WithoutKvaDistinct(frames: seq<Frame>, kva: nat)
    requires DistinctKvas(frames)
    ensures DistinctKvas(WithoutKva(frames, kva))
  {
    if frames != [] {
      WithoutKvaDistinct(frames[1..], kva);
      WithoutKvaMembers(frames[1..], kva);
      var rest := WithoutKva(frames[1..], kva);
      forall j | 0 <= j < |rest|
        ensures rest[j].kva != frames[0].kva
      {
        assert rest[j] in frames[1..];
        var m :| 0 <= m < |frames[1..]| && frames[1..][m] == rest[j];
        assert frames[m + 1] == rest[j];
      }
      var r := WithoutKva(frames, kva);
      forall i, j | 0 <= i < j < |r|
        ensures r[i].kva != r[j].kva
      {
        if frames[0].kva != kva {
          assert r[j] == rest[j - 1] && (i > 0 ==> r[i] == rest[i - 1]);
        }
      }
    }
  }

  function DestroyedState(s: State, va: nat): (r: State)
    requires va in s.spt
    requires Swapped(s, va) ==> s.spt[va].kind.slot.value < |s.swapTable|
    requires s.spt[va].frame.Some? ==> s.spt[va].frame.value < |s.pool|
  {
    var p := s.spt[va];
    s.(mapped := s.mapped - {va},
       swapTable := FreeSlot(s, va),
       frames := if p.frame.Some? then WithoutKva(s.frames, p.frame.value) else s.frames,
       pool := if p.frame.Some? then s.pool[p.frame.value := false] else s.pool,
       spt := s.spt - {va})
  }

  lemma DestroyResult(s: State, va: nat) returns (r: State)
    requires Inv(s, None) && va in s.spt
    ensures Swapped(s, va) ==> s.spt[va].kind.slot.value < |s.swapTable|
    ensures s.spt[va].frame.Some? ==> s.spt[va].frame.value < |s.pool|
    ensures r == DestroyedState(s, va) && Inv(r, None) && Mem(r) == Mem(s) - {va}
  {
    assert PageOk(s, va);
    if s.spt[va].frame.Some? {
      var m :| 0 <= m < |s.frames| && s.frames[m] == Frame(s.spt[va].frame.value, va);
      assert FrameOk(s, m);
    }
    r := DestroyedState(s, va);
    DestroyKeepsFrames(s, r, va);
    DestroyKeepsSlots(s, r, va);
    forall vb | vb in r.spt
      ensures PageOk(r, vb) && Content(r, vb) == Content(s, vb)
    {
      DestroyKeepsPage(s, r, va, vb);
    }
  }

  lemma DestroyKeepsFrames(s: State, r: State, va: nat)
    requires Inv(s, None) && va in s.spt
    requires Swapped(s, va) ==> s.spt[va].kind.slot.value < |s.swapTable|
    requires s.spt[va].frame.Some? ==> s.spt[va].frame.value < |s.pool|
    requires r == DestroyedState(s, va)
    ensures Shapes(r) && FramesOk(r) && PoolOk(r, None)
  {
    assert PageOk(s, va);
    var p := s.spt[va];
    if p.frame.Some? {
      WithoutKvaMembers(s.frames, p.frame.value);
      WithoutKvaDistinct(s.frames, p.frame.value);
      assert r.frames == WithoutKva(s.frames, p.frame.value);
      forall i | 0 <= i < |r.frames|
        ensures FrameOk(r, i)
      {
        assert r.frames[i] in s.frames;
        var m :| 0 <= m < |s.frames| && s.frames[m] == r.frames[i];
        assert FrameOk(s, m);
      }
      forall k | 0 <= k < |r.pool| && r.pool[k]
        ensures InFrameTable(r, k)
      {
        assert InFrameTable(s, k);
        var m :| 0 <= m < |s.frames| && s.frames[m].kva == k;
        assert s.frames[m] in r.frames;
      }
    } else {
      forall i | 0 <= i < |r.frames|
        ensures FrameOk(r, i)
      {
        assert FrameOk(s, i);
      }
      forall k | 0 <= k < |r.pool| && r.pool[k]
        ensures InFrameTable(r, k)
      {
        assert InFrameTable(s, k);
      }
    }
  }

  lemma DestroyKeepsSlots(s: State, r: State, va: nat)
    requires Inv(s, None) && va in s.spt
    requires r.spt == s.spt - {va} && r.swapTable == FreeSlot(s, va)
    ensures SlotsOk(r)
  {
    assert PageOk(s, va);
    forall i | 0 <= i < |r.swapTable|
      ensures SlotOwned(r, i)
    {
      assert SlotOwned(s, i);
      if r.swapTable[i] {
        var vb :| Owns(s, vb, i);
        assert Owns(r, vb, i);
      }
    }
    forall va', vb
      ensures SlotsDiffer(r, va', vb)
    {
      assert SlotsDiffer(s, va', vb);
    }
  }

  lemma DestroyKeepsPage(s: State, r: State, va: nat, vb: nat)
    requires Inv(s, None) && va in s.spt && vb in s.spt && vb != va
    requires Swapped(s, va) ==> s.spt[va].kind.slot.value < |s.swapTable|
    requires s.spt[va].frame.Some? ==> s.spt[va].frame.value < |s.pool|
    requires r == DestroyedState(s, va)
    ensures PageOk(r, vb) && Content(r, vb) == Content(s, vb)
  {
    assert PageOk(s, va) && PageOk(s, vb) && SlotsDiffer(s, va, vb);
    if s.spt[vb].kind == Anon(None) && s.spt[va].frame.Some? {
      FramesApart(s, va, vb);
      WithoutKvaMembers(s.frames, s.spt[va].frame.value);
    }
  }
}
