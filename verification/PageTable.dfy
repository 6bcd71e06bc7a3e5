/**
 The four-level page table of pintos-kaist/threads/mmu.c (section 4.5 of the Intel 64 and IA-32
 Architectures Software Developer's Manual, volume 3A).

 An entry is a number: its low twelve bits are flags, the rest is the number of the page it points to.
 `tables` holds the contents of the pages that serve as tables.  The main abstraction is `Entry`,
 the page-table entry the hardware finds for a virtual page, 0 when some level is missing.
 */
module PageTable {
  import opened Wrappers
  import opened Arithmetic

  const SIZE: nat := 512

  type Path = seq<int>

  lemma ModTwo(k: int, c: int)
    requires 0 <= c < 2
    ensures (2 * k + c) % 2 == c
  {
    DivUnique(2 * k + c, 2, k);
    DivIsQuot(2 * k + c, 2);
  }

  predicate Present(e: int) { e % 2 == 1 }

  function Target(e: int): int { e / 4096 }

  /** A table entry with all rights, as the walks install it. */
  function Link(page: int): (e: int)
    ensures Present(e) && Target(e) == page && e % 4096 == 7
  {
    DivUnique(page * 4096 + 7, 4096, page);
    ModTwo(page * 2048 + 3, 1);
    page * 4096 + 7
  }

  /** The tables, and for each its level and the entry that points to it. */
  datatype Mem = Mem(tables: map<int, seq<int>>, level: map<int, int>, parent: map<int, (int, int)>)

  predicate TableOk(m: Mem, t: int) {
    t in m.tables ==> |m.tables[t]| == SIZE && t in m.level && 1 <= m.level[t] <= 4
  }

  /** Above the lowest level an entry is empty, or points to a table of the next level that no other
      entry points to. */
  predicate EntryOk(m: Mem, t: int, i: int) {
    t in m.tables && t in m.level && m.level[t] > 1 && 0 <= i < |m.tables[t]| ==>
      var e := m.tables[t][i];
      if Present(e)
      then Target(e) in m.tables && Target(e) in m.level && m.level[Target(e)] == m.level[t] - 1 &&
           Target(e) in m.parent && m.parent[Target(e)] == (t, i)
      else e == 0
  }

  ghost predicate Tree(m: Mem) {
    (forall t: int {:trigger TableOk(m, t)} :: TableOk(m, t)) &&
    (forall t: int, i: int {:trigger EntryOk(m, t, i)} :: EntryOk(m, t, i))
  }

  predicate GoodPath(m: Mem, t: int, p: Path) {
    t in m.tables && t in m.level && |p| == m.level[t] && |p| >= 1 && forall i :: 0 <= i < |p| ==> 0 <= p[i] < SIZE
  }

  lemma Next(m: Mem, t: int, p: Path)
    requires Tree(m) && GoodPath(m, t, p)
    ensures |m.tables[t]| == SIZE && 0 <= p[0] < SIZE
    ensures |p| > 1 && Present(m.tables[t][p[0]]) ==> GoodPath(m, Target(m.tables[t][p[0]]), p[1..])
    ensures |p| > 1 && !Present(m.tables[t][p[0]]) ==> m.tables[t][p[0]] == 0
    ensures |p| > 1 && Present(m.tables[t][p[0]]) ==>
      Target(m.tables[t][p[0]]) in m.parent && m.parent[Target(m.tables[t][p[0]])] == (t, p[0])
  {
    assert TableOk(m, t) && EntryOk(m, t, p[0]);
  }

  /** Where the walk ends: the table of the lowest level and the index in it. */
  ghost function Slot(m: Mem, t: int, p: Path): Option<(int, int)>
    requires Tree(m) && GoodPath(m, t, p)
    decreases |p|
  {
    Next(m, t, p);
    if |p| == 1 then Some((t, p[0]))
    else if Present(m.tables[t][p[0]]) then Slot(m, Target(m.tables[t][p[0]]), p[1..])
    else None
  }

  /** How many tables the walk lacks. */
  ghost function Missing(m: Mem, t: int, p: Path): nat
    requires Tree(m) && GoodPath(m, t, p)
    decreases |p|
  {
    Next(m, t, p);
    if |p| == 1 then 0
    else if Present(m.tables[t][p[0]]) then Missing(m, Target(m.tables[t][p[0]]), p[1..])
    else |p| - 1
  }

  ghost function Entry(m: Mem, t: int, p: Path): int
    requires Tree(m) && GoodPath(m, t, p)
    decreases |p|
  {
    Next(m, t, p);
    var e := m.tables[t][p[0]];
    if |p| == 1 then e
    else if Present(e) then Entry(m, Target(e), p[1..])
    else 0
  }

  lemma {:induction false} EntryAtSlot(m: Mem, t: int, p: Path)
    requires Tree(m) && GoodPath(m, t, p)
    ensures Slot(m, t, p).Some? ==>
      var (l, i) := Slot(m, t, p).value;
      l in m.tables && l in m.level && m.level[l] == 1 && 0 <= i < SIZE == |m.tables[l]| && Entry(m, t, p) == m.tables[l][i]
    ensures Slot(m, t, p).None? <==> Missing(m, t, p) > 0
    ensures Slot(m, t, p).None? ==> Entry(m, t, p) == 0
    decreases |p|
  {
    Next(m, t, p);
    if |p| > 1 && Present(m.tables[t][p[0]]) {
      EntryAtSlot(m, Target(m.tables[t][p[0]]), p[1..]);
    }
  }

  /** Different pages never share an entry: the tables form a tree. */
  lemma {:induction false} SlotInjective(m: Mem, t: int, p: Path, u: int, q: Path)
    requires Tree(m) && GoodPath(m, t, p) && GoodPath(m, u, q) && |p| == |q|
    requires Slot(m, t, p).Some? && Slot(m, t, p) == Slot(m, u, q)
    ensures t == u && p == q
    decreases |p|
  {
    Next(m, t, p);
    Next(m, u, q);
    if |p| > 1 {
      SlotInjective(m, Target(m.tables[t][p[0]]), p[1..], Target(m.tables[u][q[0]]), q[1..]);
      assert p == [p[0]] + p[1..] && q == [q[0]] + q[1..];
    }
  }

  // ---------------------------------------------------------------- one table more, one entry changed

  function Empty(): seq<int> { seq(SIZE, _ => 0) }

  /** `c` becomes the table below entry `i` of `t`. */
  function Added(m: Mem, t: int, i: int, c: int): Mem
    requires t in m.tables && 0 <= i < |m.tables[t]| && t in m.level && m.level[t] > 1
  {
    Mem(m.tables[t := m.tables[t][i := Link(c)]][c := Empty()], m.level[c := m.level[t] - 1], m.parent[c := (t, i)])
  }

  ghost predicate CanAdd(m: Mem, t: int, i: int, c: int) {
    Tree(m) && t in m.tables && t in m.level && m.level[t] > 1 && 0 <= i < SIZE && |m.tables[t]| == SIZE &&
    !Present(m.tables[t][i]) && c !in m.tables
  }

  lemma AddedIsTree(m: Mem, t: int, i: int, c: int)
    requires CanAdd(m, t, i, c)
    ensures Tree(Added(m, t, i, c))
  {
    var r := Added(m, t, i, c);
    forall x: int ensures TableOk(r, x) { assert TableOk(m, x) && TableOk(m, t); }
    forall x: int, k: int ensures EntryOk(r, x, k) { assert TableOk(m, x) && EntryOk(m, x, k) && TableOk(m, t); }
  }

  /** An empty table changes no lookup. */
  lemma {:induction false} AddedKeepsEntry(m: Mem, t: int, i: int, c: int, x: int, p: Path)
    requires CanAdd(m, t, i, c) && GoodPath(m, x, p)
    ensures Tree(Added(m, t, i, c)) && GoodPath(Added(m, t, i, c), x, p)
    ensures Entry(Added(m, t, i, c), x, p) == Entry(m, x, p)
    decreases |p|
  {
    var r := Added(m, t, i, c);
    AddedIsTree(m, t, i, c);
    Next(m, x, p);
    Next(r, x, p);
    if |p| > 1 {
      if x == t && p[0] == i {
        EmptyEntry(r, c, p[1..]);
      } else if Present(m.tables[x][p[0]]) {
        AddedKeepsEntry(m, t, i, c, Target(m.tables[x][p[0]]), p[1..]);
      }
    }
  }

  lemma EmptyEntry(m: Mem, c: int, p: Path)
    requires Tree(m) && GoodPath(m, c, p) && m.tables[c] == Empty()
    ensures Entry(m, c, p) == 0
  {
    Next(m, c, p);
  }

  function Stored(m: Mem, l: int, i: int, v: int): Mem
    requires l in m.tables && 0 <= i < |m.tables[l]|
  {
    m.(tables := m.tables[l := m.tables[l][i := v]])
  }

  lemma StoredIsTree(m: Mem, l: int, i: int, v: int)
    requires Tree(m) && l in m.tables && l in m.level && m.level[l] == 1 && 0 <= i < |m.tables[l]|
    ensures Tree(Stored(m, l, i, v))
  {
    var r := Stored(m, l, i, v);
    forall x: int ensures TableOk(r, x) { assert TableOk(m, x); }
    forall x: int, k: int ensures EntryOk(r, x, k) { assert EntryOk(m, x, k) && TableOk(m, x); }
  }

  lemma {:induction false} StoredEntry(m: Mem, l: int, i: int, v: int, x: int, p: Path)
    requires Tree(m) && l in m.tables && l in m.level && m.level[l] == 1 && 0 <= i < |m.tables[l]| && GoodPath(m, x, p)
    ensures Tree(Stored(m, l, i, v)) && GoodPath(Stored(m, l, i, v), x, p)
    ensures Slot(Stored(m, l, i, v), x, p) == Slot(m, x, p)
    ensures Entry(Stored(m, l, i, v), x, p) == if Slot(m, x, p) == Some((l, i)) then v else Entry(m, x, p)
    decreases |p|
  {
    var r := Stored(m, l, i, v);
    StoredIsTree(m, l, i, v);
    Next(m, x, p);
    Next(r, x, p);
    if |p| > 1 && Present(m.tables[x][p[0]]) {
      StoredEntry(m, l, i, v, Target(m.tables[x][p[0]]), p[1..]);
    }
  }

  // ---------------------------------------------------------------- the walks

  /** Every lookup that was possible before gives the same entry. */
  ghost predicate SameEntries(m: Mem, r: Mem)
    requires Tree(m) && Tree(r)
  {
    forall x: int, p: Path {:trigger GoodPath(m, x, p)} :: GoodPath(m, x, p) ==>
      GoodPath(r, x, p) && Entry(r, x, p) == Entry(m, x, p)
  }

  /** The pages `palloc` can still hand out. */
  ghost predicate PoolOk(m: Mem, pool: seq<int>) {
    (forall i :: 0 <= i < |pool| ==> pool[i] !in m.tables) &&
    (forall i, j :: 0 <= i < j < |pool| ==> pool[i] != pool[j])
  }

  predicate KeepsLink(m: Mem, r: Mem, t: int, i: int) {
    t in m.tables && t in m.level && m.level[t] > 1 && 0 <= i < |m.tables[t]| && Present(m.tables[t][i]) ==>
      t in r.tables && i < |r.tables[t]| && r.tables[t][i] == m.tables[t][i]
  }

  ghost predicate KeepsLinks(m: Mem, r: Mem) {
    forall t: int, i: int {:trigger KeepsLink(m, r, t, i)} :: KeepsLink(m, r, t, i)
  }

  /** What a walk leaves behind: it finds the entry and takes exactly the pages it lacked, or, when there
      are too few, changes nothing at all. */
  ghost predicate Walked(m: Mem, pool: seq<int>, r: Mem, pool': seq<int>, t: int, p: Path, create: bool, at: Option<(int, int)>)
    requires Tree(m) && GoodPath(m, t, p)
  {
    var lacking := Missing(m, t, p);
    Tree(r) && PoolOk(r, pool') && SameEntries(m, r) && GoodPath(r, t, p) &&
    (at.Some? <==> lacking == 0 || (create && lacking <= |pool|)) &&
    (at.Some? ==> lacking <= |pool| && pool' == pool[lacking..] && Slot(r, t, p) == at && KeepsLinks(m, r)) &&
    (at.None? || lacking == 0 ==> r == m && pool' == pool)
  }

  class Mmu {
    var tables: map<int, seq<int>>
    var pool: seq<int>
    ghost var level: map<int, int>
    ghost var parent: map<int, (int, int)>

    ghost function Value(): Mem reads this { Mem(tables, level, parent) }

    ghost predicate Valid() reads this { Tree(Value()) && PoolOk(Value(), pool) }

    /** `palloc_get_page(PAL_ZERO)`, and linking the page below entry `i` of `t`. */
    method NewTable(t: int, i: int)
      requires Valid() && pool != [] && t in tables && t in level && level[t] > 1
      requires 0 <= i < SIZE == |tables[t]| && !Present(tables[t][i])
      modifies this
      ensures Value() == Added(old(Value()), t, i, old(pool)[0]) && pool == old(pool)[1..] && Valid()
    {
      var c := pool[0];
      AddedIsTree(Value(), t, i, c);
      pool := pool[1..];
      level, parent := level[c := level[t] - 1], parent[c := (t, i)];
      tables := tables[t := tables[t][i := Link(c)]][c := Empty()];
    }

    method PgdirWalk(pdp: int, p: Path, create: bool) returns (at: Option<(int, int)>)
      requires Valid() && GoodPath(Value(), pdp, p) && |p| == 2
      modifies this
      ensures Walked(old(Value()), old(pool), Value(), pool, pdp, p, create, at)
    {
      Next(Value(), pdp, p);
      if !Present(tables[pdp][p[0]]) {
        if !create || pool == [] { return None; }
        ghost var m, c := Value(), pool[0];
        NewTable(pdp, p[0]);
        AddedKeepsAll(m, pdp, p[0], c);
      }
      Next(Value(), pdp, p);
      return Some((Target(tables[pdp][p[0]]), p[1]));
    }

    method PdpeWalk(pdpe: int, p: Path, create: bool) returns (at: Option<(int, int)>)
      requires Valid() && GoodPath(Value(), pdpe, p) && |p| == 3
      modifies this
      ensures Walked(old(Value()), old(pool), Value(), pool, pdpe, p, create, at)
    {
      ghost var m, before := Value(), pool;
      var took := false;
      Next(m, pdpe, p);
      if !Present(tables[pdpe][p[0]]) {
        if !create || pool == [] { return None; }
        NewTable(pdpe, p[0]);
        AddedKeepsAll(m, pdpe, p[0], before[0]);
        took := true;
      }
      ghost var m1, taken := Value(), pool;
      Next(m1, pdpe, p);
      var c := Target(tables[pdpe][p[0]]);
      at := PgdirWalk(c, p[1..], create);
      if at.None? && took {
        pool := [c] + pool;
        tables := tables[pdpe := tables[pdpe][p[0] := 0]] - {c};
        level, parent := m.level, m.parent;
        Restored(m, pdpe, p[0], c);
      }
      WalkComposes(m, before, m1, taken, Value(), pool, pdpe, p, create, took, at);
    }

    method Pml4eWalk(pml4: int, p: Path, create: bool) returns (at: Option<(int, int)>)
      requires Valid() && GoodPath(Value(), pml4, p) && |p| == 4
      modifies this
      ensures Walked(old(Value()), old(pool), Value(), pool, pml4, p, create, at)
    {
      ghost var m, before := Value(), pool;
      var took := false;
      Next(m, pml4, p);
      if !Present(tables[pml4][p[0]]) {
        if !create || pool == [] { return None; }
        NewTable(pml4, p[0]);
        AddedKeepsAll(m, pml4, p[0], before[0]);
        took := true;
      }
      ghost var m1, taken := Value(), pool;
      Next(m1, pml4, p);
      var c := Target(tables[pml4][p[0]]);
      at := PdpeWalk(c, p[1..], create);
      if at.None? && took {
        pool := [c] + pool;
        tables := tables[pml4 := tables[pml4][p[0] := 0]] - {c};
        level, parent := m.level, m.parent;
        Restored(m, pml4, p[0], c);
      }
      WalkComposes(m, before, m1, taken, Value(), pool, pml4, p, create, took, at);
    }

    // -------------------------------------------------------------- mappings

    /** The entry of a page, 0 without one. */
    method ReadEntry(pml4: int, p: Path) returns (e: int)
      requires Valid() && GoodPath(Value(), pml4, p) && |p| == 4
      modifies this
      ensures Value() == old(Value()) && pool == old(pool) && e == Entry(old(Value()), pml4, p)
    {
      EntryAtSlot(Value(), pml4, p);
      var at := Pml4eWalk(pml4, p, false);
      if at.None? { return 0; }
      return tables[at.value.0][at.value.1];
    }

    /** `pml4_get_page`: the physical address of byte `ofs` of the page. */
    method GetPage(pml4: int, p: Path, ofs: nat) returns (pa: Option<int>)
      requires Valid() && GoodPath(Value(), pml4, p) && |p| == 4 && ofs < 4096
      modifies this
      ensures Value() == old(Value()) && pool == old(pool)
      ensures var e := Entry(old(Value()), pml4, p);
        pa == if Present(e) then Some(Target(e) * 4096 + ofs) else None
    {
      var e := ReadEntry(pml4, p);
      return if Present(e) then Some(Target(e) * 4096 + ofs) else None;
    }

    /** Overwriting the entry a walk has found changes that page's entry and no other's. */
    method StoreEntry(pml4: int, p: Path, l: int, i: int, e: int)
      requires Valid() && GoodPath(Value(), pml4, p) && Slot(Value(), pml4, p) == Some((l, i))
      modifies this`tables
      ensures Valid() && GoodPath(Value(), pml4, p) && Entry(Value(), pml4, p) == e
      ensures OthersKept(old(Value()), Value(), pml4, p)
    {
      EntryAtSlot(Value(), pml4, p);
      StoredKeepsOthers(Value(), pml4, p, l, i, e);
      tables := tables[l := tables[l][i := e]];
    }

    /** `pml4_set_page`: it fails exactly when memory for the missing tables is short, and then nothing
        has changed; otherwise this page's entry is the new one and every other page's is as before. */
    method SetPage(pml4: int, p: Path, frame: int, rw: bool) returns (ok: bool)
      requires Valid() && GoodPath(Value(), pml4, p) && |p| == 4
      modifies this
      ensures Valid() && GoodPath(Value(), pml4, p)
      ensures ok <==> Missing(old(Value()), pml4, p) <= |old(pool)|
      ensures !ok ==> Value() == old(Value()) && pool == old(pool)
      ensures ok ==> pool == old(pool)[Missing(old(Value()), pml4, p)..]
      ensures ok ==> Entry(Value(), pml4, p) == Rights(frame, rw) && OthersKept(old(Value()), Value(), pml4, p)
    {
      ghost var m := Value();
      var at := Pml4eWalk(pml4, p, true);
      ghost var m1 := Value();
      if at.Some? {
        StoreEntry(pml4, p, at.value.0, at.value.1, Rights(frame, rw));
        forall q: Path | GoodPath(m, pml4, q) && q != p
          ensures GoodPath(Value(), pml4, q) && Entry(Value(), pml4, q) == Entry(m, pml4, q)
        {
          assert GoodPath(m1, pml4, q);
        }
      }
      return at.Some?;
    }

    /** Changing bits of an existing entry; a page without one is left alone. */
    method Modify(pml4: int, p: Path, f: int -> int)
      requires Valid() && GoodPath(Value(), pml4, p) && |p| == 4
      modifies this
      ensures Valid() && GoodPath(Value(), pml4, p) && pool == old(pool)
      ensures OthersKept(old(Value()), Value(), pml4, p)
      ensures Entry(Value(), pml4, p) ==
        if Slot(old(Value()), pml4, p).Some? then f(Entry(old(Value()), pml4, p)) else 0
    {
      EntryAtSlot(Value(), pml4, p);
      var at := Pml4eWalk(pml4, p, false);
      if at.Some? {
        StoreEntry(pml4, p, at.value.0, at.value.1, f(tables[at.value.0][at.value.1]));
      }
    }

    /** `pml4_clear_page`: the page is gone, the rest of its entry stays. */
    method ClearPage(pml4: int, p: Path)
      requires Valid() && GoodPath(Value(), pml4, p) && |p| == 4
      modifies this
      ensures Valid() && GoodPath(Value(), pml4, p) && pool == old(pool)
      ensures OthersKept(old(Value()), Value(), pml4, p)
      ensures !Present(Entry(Value(), pml4, p)) && Target(Entry(Value(), pml4, p)) == Target(Entry(old(Value()), pml4, p))
      ensures Entry(Value(), pml4, p) ==
        Entry(old(Value()), pml4, p) - if Entry(old(Value()), pml4, p) % 2 == 1 then 1 else 0
    {
      EntryAtSlot(Value(), pml4, p);
      NotPresent(Entry(Value(), pml4, p));
      Modify(pml4, p, e => WithoutPresent(e));
    }

    /** `pml4_set_dirty` and `pml4_set_accessed`, on an existing entry. */
    method SetDirty(pml4: int, p: Path, dirty: bool)
      requires Valid() && GoodPath(Value(), pml4, p) && |p| == 4
      modifies this
      ensures Valid() && GoodPath(Value(), pml4, p) && pool == old(pool)
      ensures OthersKept(old(Value()), Value(), pml4, p)
      ensures Slot(old(Value()), pml4, p).Some? ==>
        Entry(Value(), pml4, p) == WithBit(Entry(old(Value()), pml4, p), 64, dirty)
      ensures Slot(old(Value()), pml4, p).None? ==> Entry(Value(), pml4, p) == 0
    {
      Modify(pml4, p, e => WithBit(e, 64, dirty));
    }

    method SetAccessed(pml4: int, p: Path, accessed: bool)
      requires Valid() && GoodPath(Value(), pml4, p) && |p| == 4
      modifies this
      ensures Valid() && GoodPath(Value(), pml4, p) && pool == old(pool)
      ensures OthersKept(old(Value()), Value(), pml4, p)
      ensures Slot(old(Value()), pml4, p).Some? ==>
        Entry(Value(), pml4, p) == WithBit(Entry(old(Value()), pml4, p), 32, accessed)
      ensures Slot(old(Value()), pml4, p).None? ==> Entry(Value(), pml4, p) == 0
    {
      Modify(pml4, p, e => WithBit(e, 32, accessed));
    }
  }

  function WithoutPresent(e: int): int { if Present(e) then e - 1 else e }

  lemma NotPresent(e: int)
    ensures !Present(WithoutPresent(e)) && Target(WithoutPresent(e)) == Target(e)
  {
    if Present(e) {
      DivIsQuot(e, 2);
      DivIsQuot(e, 4096);
      ModTwo(e / 2, 0);
      ModTwo(e / 4096 * 2048, 0);
      DivUnique(e - 1, 4096, e / 4096);
    }
  }

  predicate Writable(e: int) { e / 2 % 2 == 1 }
  predicate User(e: int) { e / 4 % 2 == 1 }
  predicate Accessed(e: int) { e / 32 % 2 == 1 }
  predicate Dirty(e: int) { e / 64 % 2 == 1 }

  /** A user mapping as `pml4_set_page` writes it. */
  function Rights(frame: int, rw: bool): (e: int)
    ensures Present(e) && User(e) && Target(e) == frame && (Writable(e) <==> rw) && !Dirty(e) && !Accessed(e)
    ensures e % 4096 == if rw then 7 else 5
  {
    var e := frame * 4096 + 5 + if rw then 2 else 0;
    PartsFlags(e, frame, 0, 0, 0, if rw then 7 else 5);
    LowFlags(e, frame, 0, 0, 0, if rw then 7 else 5);
    DivUnique(e, 4096, frame);
    e
  }

  const TWO32: int := 0x1_0000_0000

  /** Setting a bit of an entry, or clearing it with a mask of 32 bits, which also clears the upper half. */
  function WithBit(e: int, bit: int, on: bool): int
    requires bit == 32 || bit == 64
  {
    if on then (if e / bit % 2 == 1 then e else e + bit)
    else
      var low := e % TWO32;
      if low / bit % 2 == 1 then low - bit else low
  }

  /** An entry taken apart: the frame, bits 7 to 11, bit 6, bit 5 and the low five. */
  ghost predicate Parts(e: int, f: int, b: int, d: int, a: int, l: int) {
    e == f * 4096 + b * 128 + d * 64 + a * 32 + l && 0 <= b < 32 && 0 <= d < 2 && 0 <= a < 2 && 0 <= l < 32
  }

  lemma TakeApart(e: int) returns (f: int, b: int, d: int, a: int, l: int)
    ensures Parts(e, f, b, d, a, l)
  {
    var x := e / 32;
    var y := x / 2;
    var z := y / 2;
    f, b, d, a, l := z / 32, z % 32, y % 2, x % 2, e % 32;
  }

  lemma PartsFlags(e: int, f: int, b: int, d: int, a: int, l: int)
    requires Parts(e, f, b, d, a, l)
    ensures Target(e) == f && (Dirty(e) <==> d == 1) && (Accessed(e) <==> a == 1)
  {
    DivUnique(e, 4096, f);
    PartsBit(e, 64, f * 32 + b, d, a * 32 + l);
    PartsBit(e, 32, f * 64 + b * 2 + d, a, l);
  }

  lemma PartsBit(e: int, bit: int, k: int, c: int, l: int)
    requires bit > 0 && e == (2 * k + c) * bit + l && 0 <= c < 2 && 0 <= l < bit
    ensures e / bit % 2 == c
  {
    DivUnique(e, bit, 2 * k + c);
    ModTwo(k, c);
  }

  lemma LowFlags(e: int, f: int, b: int, d: int, a: int, l: int)
    requires Parts(e, f, b, d, a, l)
    ensures (Present(e) <==> l % 2 == 1) && (Writable(e) <==> l / 2 % 2 == 1) && (User(e) <==> l / 4 % 2 == 1)
  {
    LowBits(e, f * 128 + b * 4 + d * 2 + a, l);
  }

  lemma LowBits(e: int, k: int, l: int)
    requires e == k * 32 + l && 0 <= l < 32
    ensures e % 2 == l % 2 && e / 2 % 2 == l / 2 % 2 && e / 4 % 2 == l / 4 % 2
  {
    ModTwo(k * 16 + l / 2, l % 2);
    PartsBit(e, 2, k * 8 + l / 4, l / 2 % 2, l % 2);
    PartsBit(e, 4, k * 4 + l / 8, l / 4 % 2, l % 4);
  }

  /** Masking to 32 bits keeps twenty bits of the frame and all flags. */
  lemma Masked(e: int, f: int, b: int, d: int, a: int, l: int)
    requires Parts(e, f, b, d, a, l)
    ensures Parts(e % TWO32, f % 0x10_0000, b, d, a, l)
  {
    var h, g := f / 0x10_0000, f % 0x10_0000;
    var low := g * 4096 + b * 128 + d * 64 + a * 32 + l;
    assert e == h * TWO32 + low;
    DivUnique(e, TWO32, h);
  }

  lemma DirtyParts(e: int, on: bool, f: int, b: int, d: int, a: int, l: int)
    requires Parts(e, f, b, d, a, l)
    ensures Parts(WithBit(e, 64, on), if on then f else f % 0x10_0000, b, if on then 1 else 0, a, l)
  {
    Masked(e, f, b, d, a, l);
    PartsFlags(e, f, b, d, a, l);
    PartsFlags(e % TWO32, f % 0x10_0000, b, d, a, l);
  }

  lemma AccessedParts(e: int, on: bool, f: int, b: int, d: int, a: int, l: int)
    requires Parts(e, f, b, d, a, l)
    ensures Parts(WithBit(e, 32, on), if on then f else f % 0x10_0000, b, d, if on then 1 else 0, l)
  {
    Masked(e, f, b, d, a, l);
    PartsFlags(e, f, b, d, a, l);
    PartsFlags(e % TWO32, f % 0x10_0000, b, d, a, l);
  }

  /** Two entries that differ in frame, dirty and accessed bit at most. */
  lemma FlagsCompare(e: int, r: int, f: int, g: int, b: int, d: int, d': int, a: int, a': int, l: int)
    requires Parts(e, f, b, d, a, l) && Parts(r, g, b, d', a', l)
    ensures (Present(r) <==> Present(e)) && (Writable(r) <==> Writable(e)) && (User(r) <==> User(e))
    ensures Target(e) == f && Target(r) == g && (Dirty(r) <==> d' == 1) && (Accessed(r) <==> a' == 1)
    ensures (Dirty(e) <==> d == 1) && (Accessed(e) <==> a == 1)
    ensures e % 4096 == b * 128 + d * 64 + a * 32 + l && r % 4096 == b * 128 + d' * 64 + a' * 32 + l
  {
    DivUnique(e, 4096, f);
    DivUnique(r, 4096, g);
    PartsFlags(e, f, b, d, a, l);
    PartsFlags(r, g, b, d', a', l);
    LowFlags(e, f, b, d, a, l);
    LowFlags(r, g, b, d', a', l);
  }

  /** Twenty bits hold the number of every frame below four gigabytes, and of no other. */
  lemma FrameFits(f: int)
    requires 0 <= f
    ensures f % 0x10_0000 == f <==> f * 4096 < TWO32
  {
  }

  /** The flags come out as asked and no other of the low twelve bits changes.  The mapping survives setting a bit always, and
      clearing one if and only if the frame lies below four gigabytes. */
  lemma DirtyKeepsFrameIff(e: int, on: bool)
    requires 0 <= e
    ensures var r := WithBit(e, 64, on);
      (Dirty(r) <==> on) && (Present(r) <==> Present(e)) && (Writable(r) <==> Writable(e)) &&
      (User(r) <==> User(e)) && (Accessed(r) <==> Accessed(e)) &&
      r % 4096 == e % 4096 - (if Dirty(e) then 64 else 0) + (if on then 64 else 0) &&
      Target(r) == (if on then Target(e) else Target(e) % 0x10_0000) &&
      (Target(r) == Target(e) <==> on || Target(e) * 4096 < TWO32)
  {
    var f, b, d, a, l := TakeApart(e);
    DirtyParts(e, on, f, b, d, a, l);
    FlagsCompare(e, WithBit(e, 64, on), f, if on then f else f % 0x10_0000, b, d, if on then 1 else 0, a, a, l);
    FrameFits(f);
  }

  lemma AccessedKeepsFrameIff(e: int, on: bool)
    requires 0 <= e
    ensures var r := WithBit(e, 32, on);
      (Accessed(r) <==> on) && (Present(r) <==> Present(e)) && (Writable(r) <==> Writable(e)) &&
      (User(r) <==> User(e)) && (Dirty(r) <==> Dirty(e)) &&
      r % 4096 == e % 4096 - (if Accessed(e) then 32 else 0) + (if on then 32 else 0) &&
      Target(r) == (if on then Target(e) else Target(e) % 0x10_0000) &&
      (Target(r) == Target(e) <==> on || Target(e) * 4096 < TWO32)
  {
    var f, b, d, a, l := TakeApart(e);
    AccessedParts(e, on, f, b, d, a, l);
    FlagsCompare(e, WithBit(e, 32, on), f, if on then f else f % 0x10_0000, b, d, d, a, if on then 1 else 0, l);
    FrameFits(f);
  }

  /** Every page of this table except `p` has the entry it had. */
  ghost predicate OthersKept(m: Mem, r: Mem, t: int, p: Path)
    requires Tree(m) && Tree(r)
  {
    forall q: Path {:trigger GoodPath(m, t, q)} :: GoodPath(m, t, q) && q != p ==>
      GoodPath(r, t, q) && Entry(r, t, q) == Entry(m, t, q)
  }

  lemma StoredKeepsOthers(m: Mem, t: int, p: Path, l: int, i: int, e: int)
    requires Tree(m) && GoodPath(m, t, p) && Slot(m, t, p) == Some((l, i))
    requires l in m.tables && l in m.level && m.level[l] == 1 && 0 <= i < |m.tables[l]|
    ensures Tree(Stored(m, l, i, e)) && OthersKept(m, Stored(m, l, i, e), t, p)
    ensures GoodPath(Stored(m, l, i, e), t, p) && Entry(Stored(m, l, i, e), t, p) == e
  {
    StoredEntry(m, l, i, e, t, p);
    var r := Stored(m, l, i, e);
    forall q: Path | GoodPath(m, t, q) && q != p ensures GoodPath(r, t, q) && Entry(r, t, q) == Entry(m, t, q) {
      StoredEntry(m, l, i, e, t, q);
      if Slot(m, t, q) == Some((l, i)) { SlotInjective(m, t, p, t, q); }
    }
  }

  // ---------------------------------------------------------------- addresses

  /** The four indices of a virtual address. */
  function Indices(va: nat): (p: Path)
    ensures |p| == 4 && forall i :: 0 <= i < 4 ==> 0 <= p[i] < SIZE
  {
    [va / 0x80_0000_0000 % SIZE, va / 0x4000_0000 % SIZE, va / 0x20_0000 % SIZE, va / 0x1000 % SIZE]
  }

  /** Up to 48 bits, two addresses have the same indices exactly when they lie in the same page. */
  lemma IndicesDeterminePage(va: nat, vb: nat)
    requires va < 0x1_0000_0000_0000 && vb < 0x1_0000_0000_0000
    ensures Indices(va) == Indices(vb) <==> va / 4096 == vb / 4096
  {
    PageFromIndices(va);
    PageFromIndices(vb);
  }

  lemma PageFromIndices(va: nat)
    requires va < 0x1_0000_0000_0000
    ensures var p := Indices(va); va / 4096 == ((p[0] * 512 + p[1]) * 512 + p[2]) * 512 + p[3]
    ensures Indices(va) == PageIndices(va / 4096)
  {
    var x := va / 4096;
    DivDiv(va, 4096, 512);
    DivDiv(va, 4096, 0x4_0000);
    DivDiv(va, 4096, 0x800_0000);
    DivDiv(x, 512, 512);
    DivDiv(x, 0x4_0000, 512);
    assert x / 0x800_0000 < 512;
  }

  function PageIndices(x: nat): Path { [x / 0x800_0000 % SIZE, x / 0x4_0000 % SIZE, x / 512 % SIZE, x % SIZE] }

  lemma DivDiv(x: nat, m: nat, n: nat)
    requires m > 0 && n > 0
    ensures m * n > 0 && x / m / n == x / (m * n)
  {
    var q := x / m / n;
    DivIsQuot(x, m);
    DivIsQuot(x / m, n);
    assert 0 < m * n by { MulMono(1, n, m); }
    MulMono(q * n, x / m, m);
    MulMono(x / m + 1, q * n + n, m);
    assert q * n * m == q * (m * n) && (q * n + n) * m == q * (m * n) + m * n;
    DivUnique(x, m * n, q);
  }

  lemma AddedKeepsAll(m: Mem, t: int, i: int, c: int)
    requires CanAdd(m, t, i, c)
    ensures Tree(Added(m, t, i, c)) && SameEntries(m, Added(m, t, i, c)) && KeepsLinks(m, Added(m, t, i, c))
  {
    var r := Added(m, t, i, c);
    AddedIsTree(m, t, i, c);
    forall x: int, q: Path | GoodPath(m, x, q) ensures GoodPath(r, x, q) && Entry(r, x, q) == Entry(m, x, q) {
      AddedKeepsEntry(m, t, i, c, x, q);
    }
  }

  /** Taking the table away again gives back the very same tables. */
  lemma Restored(m: Mem, t: int, i: int, c: int)
    requires CanAdd(m, t, i, c)
    ensures var r := Added(m, t, i, c).tables;
      r[t := r[t][i := 0]] - {c} == m.tables
  {
    assert EntryOk(m, t, i);
    var r := Added(m, t, i, c).tables;
    assert m.tables[t][i := Link(c)][i := 0] == m.tables[t];
  }

  /** One level more. */
  lemma WalkComposes(m: Mem, pool: seq<int>, m1: Mem, pool1: seq<int>, r: Mem, pool2: seq<int>,
                     t: int, p: Path, create: bool, took: bool, at: Option<(int, int)>)
    requires Tree(m) && GoodPath(m, t, p) && |p| > 1 && PoolOk(m, pool)
    requires |m.tables[t]| == SIZE
    requires if Present(m.tables[t][p[0]]) then !took && m1 == m && pool1 == pool
             else took && create && pool != [] && CanAdd(m, t, p[0], pool[0]) &&
                  m1 == Added(m, t, p[0], pool[0]) && pool1 == pool[1..]
    requires Tree(m1) && SameEntries(m, m1) && KeepsLinks(m, m1) && GoodPath(m1, t, p) && |m1.tables[t]| == SIZE
    requires Present(m1.tables[t][p[0]]) && GoodPath(m1, Target(m1.tables[t][p[0]]), p[1..])
    requires if at.None? && took
             then r == m && pool2 == pool && |pool1| < Missing(m1, Target(m1.tables[t][p[0]]), p[1..])
             else Walked(m1, pool1, r, pool2, Target(m1.tables[t][p[0]]), p[1..], create, at)
    ensures Walked(m, pool, r, pool2, t, p, create, at)
  {
    Next(m, t, p);
    var c := Target(m1.tables[t][p[0]]);
    if took {
      MissingBelowEmpty(m1, c, p[1..]);
    }
    if at.Some? {
      assert KeepsLink(m1, r, t, p[0]);
      forall x: int, i: int ensures KeepsLink(m, r, x, i) { assert KeepsLink(m, m1, x, i) && KeepsLink(m1, r, x, i); }
      forall x: int, q: Path | GoodPath(m, x, q) ensures GoodPath(r, x, q) && Entry(r, x, q) == Entry(m, x, q) {
        assert GoodPath(m1, x, q);
      }
      Next(r, t, p);
    }
  }

  lemma MissingBelowEmpty(m: Mem, c: int, p: Path)
    requires Tree(m) && GoodPath(m, c, p) && m.tables[c] == Empty()
    ensures Missing(m, c, p) == |p| - 1
  {
    Next(m, c, p);
  }
}
