/**
 The kernel heap: pintos-kaist/threads/malloc.c over the page pool of pintos-kaist/threads/palloc.c.

 Addresses are relative to the pool's base, so address `a` lies in page `a / 4096`.  `live` records the
 size asked for each block handed out and not yet freed.  `mem` is the pool's bytes as the heap's users
 see them; arena headers and the links of free blocks are kept in `arenas` and `free`.
 */
module Malloc {
  import opened Wrappers
  import opened Bitmaps
  import opened Arithmetic

  const PGSIZE: nat := 4096
  const HEADER: nat := 24   // sizeof (struct arena)
  const DESCS: nat := 7
  const TWO64: nat := 0x1_0000_0000_0000_0000

  type Bytes = seq<int>

  // ---------------------------------------------------------------- sizes

  function BlockSize(d: nat): nat
    requires d < DESCS
  {
    [16, 32, 64, 128, 256, 512, 1024][d]
  }

  function PerArena(d: nat): nat
    requires d < DESCS
  {
    (PGSIZE - HEADER) / BlockSize(d)
  }

  /** `arena_to_block`. */
  function Block(p: nat, d: nat, i: nat): int
    requires d < DESCS
  {
    p * PGSIZE + HEADER + i * BlockSize(d)
  }

  /** What `block_to_arena` checks, and that the block lies wholly in its page. */
  predicate IsBlock(b: int, d: nat)
    requires d < DESCS
  {
    var o := b % PGSIZE - HEADER;
    o >= 0 && o % BlockSize(d) == 0 && o / BlockSize(d) < PerArena(d)
  }

  lemma BlockFacts(p: nat, d: nat, i: nat)
    requires d < DESCS && i < PerArena(d)
    ensures var b := Block(p, d, i);
      b / PGSIZE == p && IsBlock(b, d) && (b % PGSIZE - HEADER) / BlockSize(d) == i &&
      p * PGSIZE + HEADER <= b && b + BlockSize(d) <= (p + 1) * PGSIZE
  {
    var n := BlockSize(d);
    var o := HEADER + i * n;
    DivIsQuot(PGSIZE - HEADER, n);
    MulMono(i + 1, PerArena(d), n);
    MulMono(0, i, n);
    assert (i + 1) * n == i * n + n;
    DivUnique(p * PGSIZE + o, PGSIZE, p);
    DivUnique(i * n, n, i);
    DivIsQuot(i * n, n);
  }

  lemma BlockUnique(b: int, d: nat)
    requires 0 <= b && d < DESCS && IsBlock(b, d)
    ensures b == Block(b / PGSIZE, d, (b % PGSIZE - HEADER) / BlockSize(d))
  {
  }

  /** Two blocks of one arena are the same or do not overlap. */
  lemma BlocksApart(b: int, c: int, d: nat)
    requires 0 <= b < c && d < DESCS && IsBlock(b, d) && IsBlock(c, d) && b / PGSIZE == c / PGSIZE
    ensures b + BlockSize(d) <= c
  {
    BlockUnique(b, d);
    BlockUnique(c, d);
    var i, j := (b % PGSIZE - HEADER) / BlockSize(d), (c % PGSIZE - HEADER) / BlockSize(d);
    if j <= i { MulMono(j, i, BlockSize(d)); } else { MulMono(i + 1, j, BlockSize(d)); }
  }

  /** The smallest descriptor that fits, `DESCS` for a big block. */
  function Desc(size: nat, from: nat): (d: nat)
    requires from <= DESCS
    ensures from <= d <= DESCS
    ensures d < DESCS ==> size <= BlockSize(d)
    ensures forall e :: from <= e < d ==> BlockSize(e) < size
    decreases DESCS - from
  {
    if from == DESCS || BlockSize(from) >= size then from else Desc(size, from + 1)
  }

  /** The page count of a big block, in 64-bit arithmetic. */
  function PageCnt(size: nat): nat { ((size + HEADER) % TWO64 + PGSIZE - 1) % TWO64 / PGSIZE }

  /** The pages hold the block and its header if and only if the sum did not wrap. */
  lemma PageCntEnoughIff(size: nat)
    requires 1024 < size < TWO64
    ensures size + HEADER <= PageCnt(size) * PGSIZE <==> size + HEADER + PGSIZE - 1 < TWO64
    ensures size + HEADER + PGSIZE - 1 < TWO64 ==> 1 <= PageCnt(size) && (PageCnt(size) - 1) * PGSIZE < size + HEADER
  {
  }

  // ---------------------------------------------------------------- the heap

  datatype Arena = Small(desc: nat, freeCnt: int) | Big(pages: nat)

  datatype State = State(used: seq<bool>, arenas: map<int, Arena>, free: seq<seq<int>>, live: map<int, nat>, mem: Bytes)

  function Pages(a: Arena): nat { if a.Small? then 1 else a.pages }

  /** Bytes a user may use: `block_size`. */
  function Capacity(s: State, b: int): int
    requires b / PGSIZE in s.arenas
  {
    var a := s.arenas[b / PGSIZE];
    if a.Big? then PGSIZE * a.pages - b % PGSIZE
    else if a.desc < DESCS then BlockSize(a.desc) else 0
  }

  /** The free blocks of the arena in page `p`. */
  function FreeSet(l: seq<int>, p: int): set<int> { set b | b in l && b / PGSIZE == p }

  function AllBlocks(p: nat, d: nat, n: nat): set<int>
    requires d < DESCS
  {
    set i | 0 <= i < n :: Block(p, d, i)
  }

  predicate Distinct(l: seq<int>) { forall i, j :: 0 <= i < j < |l| ==> l[i] != l[j] }

  /** An arena's pages are in use; a small one counts its free blocks. */
  predicate ArenaOk(s: State, p: int) {
    p in s.arenas ==>
      var a := s.arenas[p];
      0 <= p && 1 <= Pages(a) && p + Pages(a) <= |s.used| &&
      (forall q {:trigger s.used[q]} :: p <= q < p + Pages(a) ==> s.used[q]) &&
      (a.Small? ==> a.desc < DESCS && a.desc < |s.free| && a.freeCnt == |FreeSet(s.free[a.desc], p)| <= PerArena(a.desc))
  }

  predicate Apart(s: State, p: int, q: int) {
    p in s.arenas && q in s.arenas && p < q ==> p + Pages(s.arenas[p]) <= q
  }

  /** A block on the free list of `d` belongs to an arena of `d`. */
  predicate FreeOk(s: State, d: nat, b: int)
    requires d < |s.free|
  {
    b in s.free[d] ==>
      0 <= b && d < DESCS && IsBlock(b, d) && b / PGSIZE in s.arenas && s.arenas[b / PGSIZE].Small? &&
      s.arenas[b / PGSIZE].desc == d
  }

  /** The blocks in use: every block of a small arena that is not free, and the one block of a big arena. */
  predicate InUse(s: State, b: int) {
    0 <= b && b / PGSIZE in s.arenas &&
    match s.arenas[b / PGSIZE]
    case Small(d, _) => d < DESCS && d < |s.free| && IsBlock(b, d) && b !in s.free[d]
    case Big(n) => b % PGSIZE == HEADER
  }

  predicate LiveOk(s: State, b: int) {
    (b in s.live <==> InUse(s, b)) &&
    (b in s.live ==> b / PGSIZE in s.arenas && 0 < s.live[b] <= Capacity(s, b))
  }

  ghost predicate Core(s: State) {
    |s.free| == DESCS && |s.mem| == |s.used| * PGSIZE &&
    (forall p: int {:trigger ArenaOk(s, p)} :: ArenaOk(s, p)) &&
    (forall p: int, q: int {:trigger Apart(s, p, q)} :: Apart(s, p, q)) &&
    (forall d: nat {:trigger Distinct(s.free[d])} :: d < DESCS ==> Distinct(s.free[d])) &&
    (forall d: nat, b: int {:trigger FreeOk(s, d, b)} :: d < DESCS ==> FreeOk(s, d, b)) &&
    (forall b: int {:trigger LiveOk(s, b)} :: LiveOk(s, b))
  }

  /** A small arena exists only while one of its blocks is in use. */
  predicate Inhabited(s: State, p: int) {
    p in s.arenas && s.arenas[p].Small? ==> s.arenas[p].desc < DESCS && s.arenas[p].freeCnt < PerArena(s.arenas[p].desc)
  }

  ghost predicate Inv(s: State) {
    Core(s) && forall p: int {:trigger Inhabited(s, p)} :: Inhabited(s, p)
  }

  // ---------------------------------------------------------------- malloc

  function Blocks(p: nat, d: nat): seq<int>
    requires d < DESCS
  {
    seq(PerArena(d), i requires 0 <= i < PerArena(d) => Block(p, d, i))
  }

  function NewArena(s: State, d: nat, p: nat): State
    requires d < DESCS == |s.free| && p < |s.used|
  {
    s.(used := s.used[p := true], arenas := s.arenas[p := Small(d, PerArena(d))], free := s.free[d := s.free[d] + Blocks(p, d)])
  }

  /** Taking the first free block of `d`. */
  function Pop(s: State, d: nat, size: nat): State
    requires d < DESCS == |s.free| && s.free[d] != []
    requires s.free[d][0] / PGSIZE in s.arenas && s.arenas[s.free[d][0] / PGSIZE].Small?
  {
    var b := s.free[d][0];
    var a := s.arenas[b / PGSIZE];
    s.(free := s.free[d := s.free[d][1..]], arenas := s.arenas[b / PGSIZE := a.(freeCnt := a.freeCnt - 1)], live := s.live[b := size])
  }

  function NewBig(s: State, p: nat, n: nat, size: nat): State
    requires p + n <= |s.used|
  {
    s.(used := Filled(s.used, p, n, true), arenas := s.arenas[p := Big(n)], live := s.live[p * PGSIZE + HEADER := size])
  }

  lemma FreeSetStep(l: seq<int>, p: int)
    requires l != [] && Distinct(l)
    ensures FreeSet(l[1..], p) == FreeSet(l, p) - (if l[0] / PGSIZE == p then {l[0]} else {})
    ensures l[0] / PGSIZE == p ==> l[0] in FreeSet(l, p)
  {
    forall b ensures b in l[1..] <==> b in l && b != l[0] {
      if b in l && b != l[0] {
        var i :| 0 <= i < |l| && l[i] == b;
        assert l[1..][i - 1] == b;
      }
      if b in l[1..] {
        var i :| 0 <= i < |l[1..]| && l[1..][i] == b;
        assert l[i + 1] == b && l[0] != l[i + 1];
      }
    }
  }

  lemma DistinctTail(l: seq<int>)
    requires l != [] && Distinct(l)
    ensures Distinct(l[1..]) && l[0] !in l[1..]
  {
  }

  lemma PopOk(s: State, d: nat, size: nat)
    requires Core(s) && d < DESCS && s.free[d] != [] && 0 < size <= BlockSize(d)
    ensures s.free[d][0] / PGSIZE in s.arenas && s.arenas[s.free[d][0] / PGSIZE].Small?
    ensures Core(Pop(s, d, size)) && s.free[d][0] !in s.live
    ensures Inhabited(Pop(s, d, size), s.free[d][0] / PGSIZE)
  {
    var b := s.free[d][0];
    var p := b / PGSIZE;
    assert FreeOk(s, d, b) && LiveOk(s, b) && ArenaOk(s, p);
    assert Distinct(s.free[d]);
    DistinctTail(s.free[d]);
    FreeSetStep(s.free[d], p);
    var r := Pop(s, d, size);
    forall q: int ensures ArenaOk(r, q) { assert ArenaOk(s, q); FreeSetStep(s.free[d], q); }
    forall q: int, t: int ensures Apart(r, q, t) { assert Apart(s, q, t); }
    forall e: nat | e < DESCS ensures Distinct(r.free[e]) { assert Distinct(s.free[e]); }
    forall e: nat, c: int | e < DESCS ensures FreeOk(r, e, c) { assert FreeOk(s, e, c); }
    forall c: int ensures LiveOk(r, c) { PopLive(s, d, size, c); }
  }

  lemma PopLive(s: State, d: nat, size: nat, c: int)
    requires |s.free| == DESCS && d < DESCS && s.free[d] != [] && Distinct(s.free[d]) && 0 < size <= BlockSize(d)
    requires FreeOk(s, d, s.free[d][0]) && LiveOk(s, c)
    ensures LiveOk(Pop(s, d, size), c)
  {
    var l := s.free[d];
    assert l == [l[0]] + l[1..];
    DistinctTail(l);
    assert c in l <==> c == l[0] || c in l[1..];
  }

  lemma {:induction false} AllBlocksCount(p: nat, d: nat, n: nat)
    requires d < DESCS && n <= PerArena(d)
    ensures |AllBlocks(p, d, n)| == n
    ensures forall b :: b in AllBlocks(p, d, n) ==> b / PGSIZE == p && IsBlock(b, d)
    decreases n
  {
    if n > 0 {
      AllBlocksCount(p, d, n - 1);
      BlockFacts(p, d, n - 1);
      var b := Block(p, d, n - 1);
      assert AllBlocks(p, d, n) == AllBlocks(p, d, n - 1) + {b};
      forall i | 0 <= i < n - 1 ensures Block(p, d, i) != b { BlockFacts(p, d, i); }
    }
  }

  lemma BlocksOk(p: nat, d: nat)
    requires d < DESCS
    ensures Distinct(Blocks(p, d)) && |FreeSet(Blocks(p, d), p)| == PerArena(d)
    ensures forall b :: b in Blocks(p, d) ==> 0 <= b && b / PGSIZE == p && IsBlock(b, d)
    ensures forall b :: 0 <= b && b / PGSIZE == p && IsBlock(b, d) ==> b in Blocks(p, d)
  {
    var l := Blocks(p, d);
    forall i | 0 <= i < |l| ensures 0 <= l[i] && l[i] / PGSIZE == p && IsBlock(l[i], d) { BlockFacts(p, d, i); }
    forall i, j | 0 <= i < j < |l| ensures l[i] != l[j] { BlockFacts(p, d, i); BlockFacts(p, d, j); }
    forall b | 0 <= b && b / PGSIZE == p && IsBlock(b, d) ensures b in l {
      BlockUnique(b, d);
      assert l[(b % PGSIZE - HEADER) / BlockSize(d)] == b;
    }
    AllBlocksCount(p, d, PerArena(d));
    assert FreeSet(l, p) == AllBlocks(p, d, PerArena(d)) by {
      forall b ensures b in l <==> b in AllBlocks(p, d, PerArena(d)) {
        if b in l { var i :| 0 <= i < |l| && l[i] == b; }
        if b in AllBlocks(p, d, PerArena(d)) { var i :| 0 <= i < PerArena(d) && Block(p, d, i) == b; assert l[i] == b; }
      }
    }
  }

  /** Unused pages belong to no arena and end none. */
  lemma UnusedApart(s: State, p: nat, n: nat, q: int)
    requires Core(s) && 1 <= n && Run(s.used, p, n, false) && q in s.arenas
    ensures q + Pages(s.arenas[q]) <= p || p + n <= q
  {
    assert ArenaOk(s, q);
    var x := if q < p then p else q;
    assert q <= x < q + Pages(s.arenas[q]) ==> s.used[x];
  }

  lemma NewArenaOk(s: State, d: nat, p: nat)
    requires Core(s) && d < DESCS && s.free[d] == [] && Run(s.used, p, 1, false)
    ensures Core(NewArena(s, d, p)) && NewArena(s, d, p).free[d] != []
    ensures forall q :: q != p && Inhabited(s, q) ==> Inhabited(NewArena(s, d, p), q)
    ensures NewArena(s, d, p).free[d][0] / PGSIZE == p
  {
    var r := NewArena(s, d, p);
    BlocksOk(p, d);
    assert s.free[d] + Blocks(p, d) == Blocks(p, d);
    assert r.free[d][0] in Blocks(p, d);
    forall q: int ensures ArenaOk(r, q) {
      assert ArenaOk(s, q);
      if q in s.arenas { UnusedApart(s, p, 1, q); }
      if q in s.arenas && s.arenas[q] == Small(d, 0) { assert FreeSet(r.free[d], q) == {}; }
    }
    forall q: int, t: int ensures Apart(r, q, t) {
      assert Apart(s, q, t);
      if q in s.arenas { UnusedApart(s, p, 1, q); }
      if t in s.arenas { UnusedApart(s, p, 1, t); }
    }
    forall e: nat | e < DESCS ensures Distinct(r.free[e]) { assert Distinct(s.free[e]); }
    if p in s.arenas { UnusedApart(s, p, 1, p); }
    forall e: nat, c: int | e < DESCS ensures FreeOk(r, e, c) { assert FreeOk(s, e, c); }
    forall c: int ensures LiveOk(r, c) { assert LiveOk(s, c); }
  }

  lemma NewBigOk(s: State, p: nat, n: nat, size: nat)
    requires Core(s) && 1 <= n && Run(s.used, p, n, false) && 0 < size <= n * PGSIZE - HEADER
    ensures Core(NewBig(s, p, n, size)) && p * PGSIZE + HEADER !in s.live
    ensures forall q :: Inhabited(s, q) ==> Inhabited(NewBig(s, p, n, size), q)
  {
    var r := NewBig(s, p, n, size);
    var b := p * PGSIZE + HEADER;
    DivUnique(b, PGSIZE, p);
    assert b % PGSIZE == HEADER;
    if p in s.arenas { UnusedApart(s, p, n, p); }
    assert LiveOk(s, b);
    forall q: int ensures ArenaOk(r, q) {
      assert ArenaOk(s, q);
      if q in s.arenas { UnusedApart(s, p, n, q); }
    }
    forall q: int, t: int ensures Apart(r, q, t) {
      assert Apart(s, q, t);
      if q in s.arenas { UnusedApart(s, p, n, q); }
      if t in s.arenas { UnusedApart(s, p, n, t); }
    }
    forall e: nat | e < DESCS ensures Distinct(r.free[e]) { assert Distinct(s.free[e]); }
    forall e: nat, c: int | e < DESCS ensures FreeOk(r, e, c) { assert FreeOk(s, e, c); }
    forall c: int ensures LiveOk(r, c) {
      assert LiveOk(s, c);
      if c / PGSIZE == p && c % PGSIZE == HEADER { assert c == b; }
    }
  }

  // ---------------------------------------------------------------- free

  function Memset(mem: Bytes, at: nat, n: nat, v: int): (r: Bytes)
    requires at + n <= |mem|
    ensures |r| == |mem|
    ensures forall x :: 0 <= x < |mem| ==> r[x] == if at <= x < at + n then v else mem[x]
  {
    mem[..at] + seq(n, _ => v) + mem[at + n..]
  }

  /** The list without the elements of `gone`. */
  function Drop(l: seq<int>, gone: set<int>): seq<int> {
    if l == [] then [] else (if l[0] in gone then [] else [l[0]]) + Drop(l[1..], gone)
  }

  lemma {:induction false} DropMembers(l: seq<int>, gone: set<int>, x: int)
    ensures x in Drop(l, gone) <==> x in l && x !in gone
    decreases |l|
  {
    if l != [] {
      DropMembers(l[1..], gone, x);
      assert l == [l[0]] + l[1..];
    }
  }

  lemma {:induction false} DropDistinct(l: seq<int>, gone: set<int>)
    requires Distinct(l)
    ensures Distinct(Drop(l, gone))
    decreases |l|
  {
    if l != [] {
      DistinctTail(l);
      DropDistinct(l[1..], gone);
      DropMembers(l[1..], gone, l[0]);
    }
  }

  lemma {:induction false} DropTwice(l: seq<int>, a: set<int>, b: set<int>)
    ensures Drop(Drop(l, a), b) == Drop(l, a + b)
    decreases |l|
  {
    if l != [] {
      DropTwice(l[1..], a, b);
      if l[0] in a {
        assert Drop(l, a) == Drop(l[1..], a);
      } else {
        assert Drop(l, a)[1..] == Drop(l[1..], a);
      }
    }
  }

  /** A freed block at the head of its list. */
  function Pushed(s: State, b: int, d: nat, p: int): State
    requires d < |s.free| && d < DESCS && p in s.arenas && s.arenas[p].Small? && 0 <= b && b + BlockSize(d) <= |s.mem|
  {
    s.(free := s.free[d := [b] + s.free[d]], arenas := s.arenas[p := Small(d, s.arenas[p].freeCnt + 1)],
       live := s.live - {b}, mem := Memset(s.mem, b, BlockSize(d), 0xcc))
  }

  /** An arena given back. */
  function Dismantled(s: State, d: nat, p: nat): State
    requires d < |s.free| && d < DESCS && p < |s.used| && (p + 1) * PGSIZE <= |s.mem|
  {
    s.(free := s.free[d := Drop(s.free[d], AllBlocks(p, d, PerArena(d)))], arenas := s.arenas - {p},
       used := s.used[p := false], mem := Memset(s.mem, p * PGSIZE, PGSIZE, 0xcc))
  }

  function FreedBig(s: State, b: int, p: nat, n: nat): State
    requires p + n <= |s.used| && (p + n) * PGSIZE <= |s.mem|
  {
    s.(arenas := s.arenas - {p}, live := s.live - {b}, used := Filled(s.used, p, n, false),
       mem := Memset(s.mem, p * PGSIZE, n * PGSIZE, 0xcc))
  }

  lemma SubsetCard(a: set<int>, b: set<int>)
    requires a <= b
    ensures |a| <= |b| && (|a| == |b| ==> a == b)
  {
    assert b == a + (b - a);
    assert |b| == |a| + |b - a|;
    if |b - a| == 0 { assert b - a == {}; }
  }

  /** Where a live block lies. */
  lemma LiveFacts(s: State, b: int)
    requires Core(s) && b in s.live
    ensures InUse(s, b) && 0 <= b && b / PGSIZE in s.arenas
    ensures 0 < s.live[b] <= Capacity(s, b) && b + Capacity(s, b) <= |s.mem|
    ensures var p := b / PGSIZE;
      0 <= p && p + Pages(s.arenas[p]) <= |s.used| &&
      p * PGSIZE + HEADER <= b && b + Capacity(s, b) <= (p + Pages(s.arenas[p])) * PGSIZE <= |s.mem|
  {
    assert LiveOk(s, b);
    var p := b / PGSIZE;
    assert ArenaOk(s, p);
    var a := s.arenas[p];
    DivIsQuot(b, PGSIZE);
    if a.Small? {
      BlockUnique(b, a.desc);
      BlockFacts(p, a.desc, (b % PGSIZE - HEADER) / BlockSize(a.desc));
    }
  }

  /** The free blocks of an arena are among its blocks. */
  lemma FreeSetWithin(s: State, d: nat, p: nat)
    requires Core(s) && d < DESCS
    ensures FreeSet(s.free[d], p) <= AllBlocks(p, d, PerArena(d)) && |AllBlocks(p, d, PerArena(d))| == PerArena(d)
  {
    AllBlocksCount(p, d, PerArena(d));
    forall b | b in FreeSet(s.free[d], p) ensures b in AllBlocks(p, d, PerArena(d)) {
      assert FreeOk(s, d, b);
      BlockUnique(b, d);
    }
  }

  lemma InAllBlocks(b: int, d: nat)
    requires 0 <= b && d < DESCS && IsBlock(b, d)
    ensures b in AllBlocks(b / PGSIZE, d, PerArena(d))
  {
    BlockUnique(b, d);
  }

  lemma PushedOk(s: State, b: int, d: nat, p: nat)
    requires Core(s) && b in s.live && p == b / PGSIZE && p in s.arenas && s.arenas[p].Small? && s.arenas[p].desc == d
    requires d < DESCS && b + BlockSize(d) <= |s.mem|
    ensures Core(Pushed(s, b, d, p))
    ensures forall q :: q != p && Inhabited(s, q) ==> Inhabited(Pushed(s, b, d, p), q)
  {
    LiveFacts(s, b);
    var r := Pushed(s, b, d, p);
    assert Distinct(s.free[d]);
    OneMoreFree(s, b, d, p);
    forall q: int ensures ArenaOk(r, q) {
      assert ArenaOk(s, q);
      OthersFree(s.free[d], b, q);
    }
    forall q: int, t: int ensures Apart(r, q, t) { assert Apart(s, q, t); }
    forall e: nat | e < DESCS ensures Distinct(r.free[e]) { assert Distinct(s.free[e]); }
    forall e: nat, c: int | e < DESCS ensures FreeOk(r, e, c) { assert FreeOk(s, e, c); }
    forall c: int ensures LiveOk(r, c) { assert LiveOk(s, c); }
  }

  lemma OthersFree(l: seq<int>, b: int, q: int)
    ensures FreeSet([b] + l, q) == FreeSet(l, q) + if b / PGSIZE == q then {b} else {}
  {
  }

  /** There is room among the arena's blocks for one more free one. */
  lemma OneMoreFree(s: State, b: int, d: nat, p: nat)
    requires Core(s) && d < DESCS && 0 <= b && p == b / PGSIZE && IsBlock(b, d) && b !in s.free[d]
    ensures |FreeSet([b] + s.free[d], p)| == |FreeSet(s.free[d], p)| + 1 <= PerArena(d)
  {
    OthersFree(s.free[d], b, p);
    FreeSetWithin(s, d, p);
    InAllBlocks(b, d);
    SubsetCard(FreeSet([b] + s.free[d], p), AllBlocks(p, d, PerArena(d)));
  }

  lemma DropFreeSet(l: seq<int>, p: nat, d: nat, q: int)
    requires d < DESCS && q != p
    ensures FreeSet(Drop(l, AllBlocks(p, d, PerArena(d))), q) == FreeSet(l, q)
  {
    var gone := AllBlocks(p, d, PerArena(d));
    AllBlocksCount(p, d, PerArena(d));
    forall b ensures b in FreeSet(Drop(l, gone), q) <==> b in FreeSet(l, q) { DropMembers(l, gone, b); }
  }

  /** When all blocks of an arena are free they are all on the list, and the arena can go. */
  lemma DismantledOk(s: State, d: nat, p: nat)
    requires Core(s) && d < DESCS && p in s.arenas && s.arenas[p] == Small(d, PerArena(d))
    ensures p < |s.used| && (p + 1) * PGSIZE <= |s.mem| && FreeSet(s.free[d], p) == AllBlocks(p, d, PerArena(d))
    ensures Core(Dismantled(s, d, p))
    ensures forall q :: q != p && Inhabited(s, q) ==> Inhabited(Dismantled(s, d, p), q)
  {
    assert ArenaOk(s, p);
    FreeSetWithin(s, d, p);
    SubsetCard(FreeSet(s.free[d], p), AllBlocks(p, d, PerArena(d)));
    var r := Dismantled(s, d, p);
    forall q: int ensures ArenaOk(r, q) {
      assert ArenaOk(s, q) && Apart(s, p, q) && Apart(s, q, p);
      if q != p { DropFreeSet(s.free[d], p, d, q); }
    }
    forall q: int, t: int ensures Apart(r, q, t) { assert Apart(s, q, t); }
    forall e: nat | e < DESCS ensures Distinct(r.free[e]) {
      assert Distinct(s.free[e]);
      DropDistinct(s.free[d], AllBlocks(p, d, PerArena(d)));
    }
    forall e: nat, c: int | e < DESCS ensures FreeOk(r, e, c) {
      assert FreeOk(s, e, c);
      DropMembers(s.free[d], AllBlocks(p, d, PerArena(d)), c);
      if c in s.free[e] && c / PGSIZE == p { InAllBlocks(c, d); }
    }
    forall c: int ensures LiveOk(r, c) { DismantledLive(s, d, p, c); }
  }

  lemma DismantledLive(s: State, d: nat, p: nat, c: int)
    requires |s.free| == DESCS && d < DESCS && p in s.arenas && s.arenas[p].Small? && s.arenas[p].desc == d && LiveOk(s, c)
    requires p < |s.used| && (p + 1) * PGSIZE <= |s.mem| && FreeSet(s.free[d], p) == AllBlocks(p, d, PerArena(d))
    ensures LiveOk(Dismantled(s, d, p), c)
  {
    var gone := AllBlocks(p, d, PerArena(d));
    DropMembers(s.free[d], gone, c);
    AllBlocksCount(p, d, PerArena(d));
    if 0 <= c && c / PGSIZE == p && IsBlock(c, d) {
      InAllBlocks(c, d);
      assert c in FreeSet(s.free[d], p);
    }
  }

  lemma FreedBigOk(s: State, b: int, p: nat, n: nat)
    requires Core(s) && b in s.live && p == b / PGSIZE && p in s.arenas && s.arenas[p] == Big(n)
    requires p + n <= |s.used| && (p + n) * PGSIZE <= |s.mem|
    ensures Core(FreedBig(s, b, p, n))
    ensures forall q :: Inhabited(s, q) ==> Inhabited(FreedBig(s, b, p, n), q)
  {
    LiveFacts(s, b);
    var r := FreedBig(s, b, p, n);
    forall q: int ensures ArenaOk(r, q) { assert ArenaOk(s, q) && Apart(s, p, q) && Apart(s, q, p); }
    forall q: int, t: int ensures Apart(r, q, t) { assert Apart(s, q, t); }
    forall e: nat | e < DESCS ensures Distinct(r.free[e]) { assert Distinct(s.free[e]); }
    forall e: nat, c: int | e < DESCS ensures FreeOk(r, e, c) { assert FreeOk(s, e, c); }
    forall c: int ensures LiveOk(r, c) {
      assert LiveOk(s, c);
      if c / PGSIZE == p && c % PGSIZE == HEADER { assert c == b; }
    }
  }

  // ---------------------------------------------------------------- what users rely on

  /** Live blocks never overlap. */
  lemma LiveApart(s: State, b: int, c: int)
    requires Core(s) && b in s.live && c in s.live && b < c
    ensures b / PGSIZE in s.arenas && b + Capacity(s, b) <= c
  {
    LiveFacts(s, b);
    LiveFacts(s, c);
    var p, q := b / PGSIZE, c / PGSIZE;
    DivIsQuot(b, PGSIZE);
    DivIsQuot(c, PGSIZE);
    assert Apart(s, p, q);
    if p == q {
      if s.arenas[p].Small? { BlocksApart(b, c, s.arenas[p].desc); }
    } else {
      assert p < q;
      MulMono(p + Pages(s.arenas[p]), q, PGSIZE);
    }
  }

  /** Nor does a live block touch a free block or an arena's header, where the heap keeps its own data. */
  lemma LiveApartFromFree(s: State, b: int, d: nat, f: int, p: int)
    requires Core(s) && b in s.live && d < DESCS
    ensures b / PGSIZE in s.arenas
    ensures f in s.free[d] ==> b + Capacity(s, b) <= f || f + BlockSize(d) <= b
    ensures p in s.arenas ==> b + Capacity(s, b) <= p * PGSIZE || p * PGSIZE + HEADER <= b
  {
    LiveFacts(s, b);
    DivIsQuot(b, PGSIZE);
    var q := b / PGSIZE;
    if f in s.free[d] { FreeBlockApart(s, b, d, f); }
    if p in s.arenas {
      assert Apart(s, p, q) && Apart(s, q, p) && ArenaOk(s, p);
      if p < q { MulMono(p + 1, q, PGSIZE); }
      if q < p { MulMono(q + Pages(s.arenas[q]), p, PGSIZE); }
    }
  }

  lemma FreeBlockApart(s: State, b: int, d: nat, f: int)
    requires Core(s) && b in s.live && d < DESCS && f in s.free[d]
    ensures b / PGSIZE in s.arenas && (b + Capacity(s, b) <= f || f + BlockSize(d) <= b)
  {
    LiveFacts(s, b);
    assert FreeOk(s, d, f);
    var p, q := f / PGSIZE, b / PGSIZE;
    BlockUnique(f, d);
    BlockFacts(p, d, (f % PGSIZE - HEADER) / BlockSize(d));
    DivIsQuot(b, PGSIZE);
    assert Apart(s, p, q) && Apart(s, q, p);
    if p < q { MulMono(p + 1, q, PGSIZE); }
    else if q < p { MulMono(q + Pages(s.arenas[q]), p, PGSIZE); }
    else if b < f { BlocksApart(b, f, d); }
    else { BlocksApart(f, b, d); }
  }

  // ---------------------------------------------------------------- the operations

  datatype Result = Result(state: State, at: Option<int>)

  /** The page count of the request wraps, and there are that few pages to be had. */
  predicate Breaks(s: State, size: nat) {
    size + HEADER + PGSIZE - 1 >= TWO64 && FirstFit(s.used, 0, PageCnt(size), false).Some?
  }

  /** Only the 4119 largest sizes wrap.  For the first 4096 of them no page at all is asked for, and that request is
      always met. */
  lemma WrapFacts(s: State, size: nat)
    requires size < TWO64
    ensures size + HEADER + PGSIZE - 1 >= TWO64 ==> PageCnt(size) == if size + HEADER <= TWO64 then 0 else 1
    ensures TWO64 - HEADER - PGSIZE < size <= TWO64 - HEADER ==> FirstFit(s.used, 0, PageCnt(size), false) == Some(0) && Breaks(s, size)
  {
    assert Run(s.used, 0, 0, false);
  }

  ghost function Malloc(s: State, size: nat): Result
    requires Inv(s) && size < TWO64
  {
    if size == 0 then Result(s, None)
    else
      var d := Desc(size, 0);
      if d == DESCS then
        var n := PageCnt(size);
        var p := FirstFit(s.used, 0, n, false);
        if p.None? then Result(s, None)
        else Result(NewBig(s, p.value, n, size), Some(p.value * PGSIZE + HEADER))
      else if s.free[d] == [] then
        var p := FirstFit(s.used, 0, 1, false);
        if p.None? then Result(s, None)
        else
          NewArenaOk(s, d, p.value);
          PopOk(NewArena(s, d, p.value), d, size);
          Result(Pop(NewArena(s, d, p.value), d, size), Some(Block(p.value, d, 0)))
      else
        PopOk(s, d, size);
        Result(Pop(s, d, size), Some(s.free[d][0]))
  }

  /** malloc keeps the heap sound exactly when its page count does not wrap or no page is found.  Then it returns a block
      of at least the size asked, that was not in use, and disturbs nothing; otherwise the block is too small.  It
      fails exactly for a request of nothing and when the pages are not there. */
  lemma MallocOk(s: State, size: nat)
    requires Inv(s) && size < TWO64
    ensures Inv(Malloc(s, size).state) <==> !Breaks(s, size)
    ensures var r := Malloc(s, size);
      r.state.mem == s.mem &&
      (r.at.None? ==> r.state == s) &&
      (r.at.Some? ==> r.state.live == s.live[r.at.value := size] && (!Breaks(s, size) ==> r.at.value !in s.live)) &&
      (Breaks(s, size) ==> r.at.Some? && r.at.value / PGSIZE in r.state.arenas && Capacity(r.state, r.at.value) < size)
    ensures var d := Desc(size, 0);
      Malloc(s, size).at.None? <==>
        size == 0 ||
        (if d < DESCS then s.free[d] == [] && forall p: nat :: !Run(s.used, p, 1, false)
         else forall p: nat :: !Run(s.used, p, PageCnt(size), false))
  {
    var d := Desc(size, 0);
    if size > 0 {
      if d == DESCS {
        assert BlockSize(6) < size;
        PageCntEnoughIff(size);
        var p := FirstFit(s.used, 0, PageCnt(size), false);
        if Breaks(s, size) {
          TooSmall(s, size);
        } else if p.Some? {
          NewBigOk(s, p.value, PageCnt(size), size);
          KeepInhabited(s, Malloc(s, size).state);
        }
      } else if s.free[d] == [] {
        var p := FirstFit(s.used, 0, 1, false);
        if p.Some? { NewArenaPop(s, d, p.value, size); }
      } else {
        PopOk(s, d, size);
        forall q: int ensures Inhabited(Pop(s, d, size), q) { assert Inhabited(s, q); }
      }
    }
  }

  /** The block handed out when the page count wraps. */
  lemma TooSmall(s: State, size: nat)
    requires Inv(s) && size < TWO64 && Breaks(s, size)
    ensures var r := Malloc(s, size);
      r.at.Some? && r.at.value / PGSIZE in r.state.arenas && Capacity(r.state, r.at.value) < size && !Inv(r.state)
  {
    WrapFacts(s, size);
    var p := FirstFit(s.used, 0, PageCnt(size), false).value;
    var r := NewBig(s, p, PageCnt(size), size);
    var b := p * PGSIZE + HEADER;
    DivUnique(b, PGSIZE, p);
    assert BlockSize(6) < size;
    assert Malloc(s, size) == Result(r, Some(b));
    assert !LiveOk(r, b);
  }

  lemma KeepInhabited(s: State, r: State)
    requires forall q: int {:trigger Inhabited(s, q)} :: Inhabited(s, q)
    requires forall q :: Inhabited(s, q) ==> Inhabited(r, q)
    ensures forall q: int {:trigger Inhabited(r, q)} :: Inhabited(r, q)
  {
    forall q: int ensures Inhabited(r, q) { assert Inhabited(s, q); }
  }

  lemma NewArenaPop(s: State, d: nat, p: nat, size: nat)
    requires Inv(s) && d < DESCS && s.free[d] == [] && Run(s.used, p, 1, false) && 0 < size <= BlockSize(d)
    ensures var a := NewArena(s, d, p);
      Core(a) && a.free[d] != [] && a.free[d][0] == Block(p, d, 0) && a.free[d][0] / PGSIZE in a.arenas &&
      a.arenas[a.free[d][0] / PGSIZE].Small? && Inv(Pop(a, d, size)) && Block(p, d, 0) !in s.live
  {
    NewArenaOk(s, d, p);
    var a := NewArena(s, d, p);
    PopOk(a, d, size);
    BlockFacts(p, d, 0);
    forall q: int ensures Inhabited(Pop(a, d, size), q) {
      assert Inhabited(s, q);
      if q != p { assert Inhabited(a, q); }
    }
  }

  ghost function Free(s: State, b: int): State
    requires Inv(s) && b in s.live
  {
    LiveFacts(s, b);
    var p := b / PGSIZE;
    match s.arenas[p]
    case Big(n) => FreedBig(s, b, p, n)
    case Small(d, cnt) =>
      PushedOk(s, b, d, p);
      if cnt + 1 >= PerArena(d) then Dismantle(Pushed(s, b, d, p), d, p) else Pushed(s, b, d, p)
  }

  ghost function Dismantle(s: State, d: nat, p: nat): State
    requires Core(s) && d < DESCS && p in s.arenas && s.arenas[p].Small? && s.arenas[p].desc == d && s.arenas[p].freeCnt >= PerArena(d)
  {
    assert ArenaOk(s, p);
    DismantledOk(s, d, p);
    Dismantled(s, d, p)
  }

  /** free takes back exactly that block; its arena goes exactly when none of its blocks is left in use. */
  lemma FreeOkay(s: State, b: int)
    requires Inv(s) && b in s.live
    ensures Inv(Free(s, b)) && Free(s, b).live == s.live - {b}
    ensures b / PGSIZE in Free(s, b).arenas <==> exists c :: c in s.live && c != b && c / PGSIZE == b / PGSIZE
  {
    LiveFacts(s, b);
    var p := b / PGSIZE;
    assert Inhabited(s, p) && ArenaOk(s, p);
    match s.arenas[p] {
      case Big(n) =>
        FreedBigOk(s, b, p, n);
        KeepInhabited(s, Free(s, b));
        forall c | c in s.live && c / PGSIZE == p ensures c == b { assert LiveOk(s, c); }
      case Small(d, cnt) =>
        PushedOk(s, b, d, p);
        var t := Pushed(s, b, d, p);
        if cnt + 1 >= PerArena(d) {
          assert ArenaOk(t, p);
          DismantledOk(t, d, p);
          forall q: int ensures Inhabited(Free(s, b), q) { assert Inhabited(s, q); if q != p { assert Inhabited(t, q); } }
          forall c | c in s.live && c / PGSIZE == p ensures c == b { NoneLeft(s, b, c, d, p); }
        } else {
          forall q: int ensures Inhabited(t, q) { assert Inhabited(s, q); }
          var c := SomeLeft(t, d, p);
        }
    }
  }

  /** In a full arena no block but `b` was in use. */
  lemma NoneLeft(s: State, b: int, c: int, d: nat, p: nat)
    requires Core(s) && b in s.live && c in s.live && b / PGSIZE == c / PGSIZE == p
    requires p in s.arenas && s.arenas[p].Small? && s.arenas[p].desc == d && d < DESCS
    requires b + BlockSize(d) <= |s.mem| && s.arenas[p].freeCnt + 1 >= PerArena(d)
    ensures c == b
  {
    PushedOk(s, b, d, p);
    var t := Pushed(s, b, d, p);
    assert ArenaOk(t, p) && LiveOk(t, c) && LiveOk(s, c);
    DismantledOk(t, d, p);
    InAllBlocks(c, d);
  }

  /** An arena with fewer free blocks than blocks has one in use. */
  lemma SomeLeft(s: State, d: nat, p: nat) returns (c: int)
    requires Core(s) && p in s.arenas && s.arenas[p].Small? && s.arenas[p].desc == d && d < DESCS && s.arenas[p].freeCnt < PerArena(d)
    ensures c in s.live && c / PGSIZE == p
  {
    assert ArenaOk(s, p);
    FreeSetWithin(s, d, p);
    AllBlocksCount(p, d, PerArena(d));
    var rest := AllBlocks(p, d, PerArena(d)) - FreeSet(s.free[d], p);
    assert AllBlocks(p, d, PerArena(d)) == FreeSet(s.free[d], p) + rest;
    c :| c in rest;
    assert LiveOk(s, c);
  }

  // ---------------------------------------------------------------- contents

  /** The bytes of a live block. */
  ghost function Data(s: State, b: int): Bytes
    requires Core(s) && b in s.live
  {
    LiveFacts(s, b);
    s.mem[b..b + Capacity(s, b)]
  }

  /** Same block, same size, same bytes. */
  ghost predicate Kept(s: State, r: State, c: int) {
    Core(s) && Core(r) && c in s.live && c in r.live && r.live[c] == s.live[c] && Data(r, c) == Data(s, c)
  }

  lemma MallocKeeps(s: State, size: nat, c: int)
    requires Inv(s) && size < TWO64 && !Breaks(s, size) && c in s.live
    ensures Kept(s, Malloc(s, size).state, c)
  {
    MallocOk(s, size);
    LiveFacts(s, c);
    LiveFacts(Malloc(s, size).state, c);
    var d := Desc(size, 0);
    if size > 0 && Malloc(s, size).at.Some? {
      if d == DESCS {
        UnusedApart(s, FirstFit(s.used, 0, PageCnt(size), false).value, PageCnt(size), c / PGSIZE) by { PageCntEnoughIff(size); }
      } else if s.free[d] == [] {
        UnusedApart(s, FirstFit(s.used, 0, 1, false).value, 1, c / PGSIZE);
        NewArenaOk(s, d, FirstFit(s.used, 0, 1, false).value);
        PopOk(NewArena(s, d, FirstFit(s.used, 0, 1, false).value), d, size);
      } else {
        PopOk(s, d, size);
      }
    }
  }

  lemma FreeKeeps(s: State, b: int, c: int)
    requires Inv(s) && b in s.live && c in s.live && c != b
    ensures Kept(s, Free(s, b), c)
  {
    FreeOkay(s, b);
    var r := Free(s, b);
    LiveFacts(s, b);
    LiveFacts(s, c);
    LiveFacts(r, c);
    var p, q := b / PGSIZE, c / PGSIZE;
    assert Apart(s, p, q) && Apart(s, q, p);
    if b < c { LiveApart(s, b, c); } else { LiveApart(s, c, b); }
    SameCapacity(s, b, c);
    if q != p {
      if p < q { MulMono(p + Pages(s.arenas[p]), q, PGSIZE); } else { MulMono(q + Pages(s.arenas[q]), p, PGSIZE); }
      DivIsQuot(c, PGSIZE);
    }
    assert forall x :: c <= x < c + Capacity(s, c) ==> r.mem[x] == s.mem[x];
  }

  lemma SameCapacity(s: State, b: int, c: int)
    requires Inv(s) && b in s.live && c in s.live && c != b && c in Free(s, b).live && Core(Free(s, b))
    ensures c / PGSIZE in s.arenas && c / PGSIZE in Free(s, b).arenas && Capacity(Free(s, b), c) == Capacity(s, c)
    ensures |Free(s, b).mem| == |s.mem| && b / PGSIZE in s.arenas
    ensures b / PGSIZE == c / PGSIZE ==>
      forall x :: 0 <= x < |s.mem| && !(b <= x < b + Capacity(s, b)) ==> Free(s, b).mem[x] == s.mem[x]
  {
    LiveFacts(s, b);
    LiveFacts(s, c);
    LiveFacts(Free(s, b), c);
  }

  /** realloc, with `None` for the null pointer.  A malloc that breaks the heap ends what is followed here. */
  ghost function Realloc(s: State, block: Option<int>, size: nat): Result
    requires Inv(s) && size < TWO64 && (block.Some? ==> block.value in s.live)
  {
    if size == 0 then
      (if block.Some? then Result(Free(s, block.value), None) else Result(s, None))
    else
      var r := Malloc(s, size);
      MallocOk(s, size);
      if block.Some? && r.at.Some? && !Breaks(s, size) then
        var t := Copied(r.state, block.value, r.at.value, size);
        CopiedOk(s, size, block.value);
        Result(Free(t, block.value), r.at)
      else r
  }

  function MinOf(a: int, b: int): int { if a < b then a else b }

  /** The memcpy of realloc: `r` is the heap after the new block was taken. */
  ghost function Copied(r: State, b: int, c: int, size: nat): State
    requires Core(r) && b in r.live && c in r.live && r.live[c] == size
  {
    LiveFacts(r, b);
    LiveFacts(r, c);
    var n := MinOf(size, Capacity(r, b));
    r.(mem := r.mem[..c] + r.mem[b..b + n] + r.mem[c + n..])
  }

  lemma CopiedOk(s: State, size: nat, b: int)
    requires Inv(s) && size < TWO64 && !Breaks(s, size) && b in s.live && Malloc(s, size).at.Some?
    ensures var r := Malloc(s, size); Inv(r.state) && r.at.value in r.state.live && b in r.state.live && r.state.live[r.at.value] == size
    ensures var r := Malloc(s, size); var t := Copied(r.state, b, r.at.value, size);
      Inv(t) && t == r.state.(mem := t.mem)
  {
    MallocOk(s, size);
    var r := Malloc(s, size).state;
    var c := Malloc(s, size).at.value;
    LiveFacts(r, b);
    LiveFacts(r, c);
    MemKeepsInv(r, Copied(r, b, c, size).mem);
  }

  lemma MemKeepsInv(s: State, mem: Bytes)
    requires Inv(s) && |mem| == |s.mem|
    ensures Inv(s.(mem := mem))
  {
    var r := s.(mem := mem);
    forall p: int ensures ArenaOk(r, p) { assert ArenaOk(s, p); }
    forall p: int, q: int ensures Apart(r, p, q) { assert Apart(s, p, q); }
    forall d: nat | d < DESCS ensures Distinct(r.free[d]) { assert Distinct(s.free[d]); }
    forall d: nat, b: int | d < DESCS ensures FreeOk(r, d, b) { assert FreeOk(s, d, b); }
    forall b: int ensures LiveOk(r, b) { assert LiveOk(s, b); }
    forall p: int ensures Inhabited(r, p) { assert Inhabited(s, p); }
  }

  /** realloc keeps the heap sound exactly when its malloc does.  Then it keeps the common prefix, frees the old block and
      leaves every other block alone; when there is no memory it changes nothing. */
  lemma ReallocOk(s: State, b: int, size: nat)
    requires Inv(s) && 0 < size < TWO64 && b in s.live
    ensures Inv(Realloc(s, Some(b), size).state) <==> !Breaks(s, size)
    ensures Realloc(s, Some(b), size).at.None? <==> Malloc(s, size).at.None?
    ensures Realloc(s, Some(b), size).at.None? ==> Realloc(s, Some(b), size).state == s
    ensures Realloc(s, Some(b), size).at.Some? && !Breaks(s, size) ==>
      var r := Realloc(s, Some(b), size).state; var c := Realloc(s, Some(b), size).at.value;
      c !in s.live && r.live == s.live[c := size] - {b} &&
      |Data(r, c)| >= size &&
      Data(r, c)[..MinOf(size, |Data(s, b)|)] == Data(s, b)[..MinOf(size, |Data(s, b)|)]
  {
    MallocOk(s, size);
    var m := Malloc(s, size);
    if m.at.Some? && !Breaks(s, size) {
      CopiedOk(s, size, b);
      var c := m.at.value;
      var t := Copied(m.state, b, c, size);
      LiveFacts(s, b);
      MallocKeeps(s, size, b);
      CopiedPrefix(s, m.state, b, c, size);
      FreeOkay(t, b);
      FreeKeeps(t, b, c);
      LiveFacts(t, c);
    }
  }

  lemma CopiedPrefix(s: State, r: State, b: int, c: int, size: nat)
    requires Core(s) && Kept(s, r, b) && c in r.live && r.live[c] == size && Core(Copied(r, b, c, size))
    ensures |Data(Copied(r, b, c, size), c)| >= size
    ensures var n := MinOf(size, |Data(s, b)|); Data(Copied(r, b, c, size), c)[..n] == Data(s, b)[..n]
  {
    LiveFacts(s, b);
    LiveFacts(r, b);
    LiveFacts(r, c);
    var t := Copied(r, b, c, size);
    var n := MinOf(size, Capacity(r, b));
    assert t.mem[c..c + n] == r.mem[b..b + n];
    assert Data(t, c)[..n] == t.mem[c..c + n];
    assert Data(r, b)[..n] == r.mem[b..b + n];
  }

  lemma ReallocKeeps(s: State, b: int, size: nat, x: int)
    requires Inv(s) && 0 < size < TWO64 && !Breaks(s, size) && b in s.live && x in s.live && x != b
    ensures Kept(s, Realloc(s, Some(b), size).state, x)
  {
    MallocOk(s, size);
    MallocKeeps(s, size, x);
    var m := Malloc(s, size);
    if m.at.Some? {
      CopiedOk(s, size, b);
      var c := m.at.value;
      var t := Copied(m.state, b, c, size);
      CopiedKeeps(m.state, b, c, size, x);
      FreeKeeps(t, b, x);
    }
  }

  lemma CopiedKeeps(r: State, b: int, c: int, size: nat, x: int)
    requires Core(r) && b in r.live && c in r.live && r.live[c] == size
    requires x in r.live && x != c && Core(Copied(r, b, c, size))
    ensures Kept(r, Copied(r, b, c, size), x)
  {
    LiveFacts(r, x);
    LiveFacts(r, c);
    LiveFacts(r, b);
    if x < c { LiveApart(r, x, c); } else { LiveApart(r, c, x); }
    var t := Copied(r, b, c, size);
    assert forall i :: x <= i < x + Capacity(r, x) ==> t.mem[i] == r.mem[i];
  }

  // ---------------------------------------------------------------- whole runs

  /** `PageCall`: another user of the pool takes or gives back a page. */
  datatype Call =
    | MallocCall(size: nat)
    | FreeCall(block: int)
    | ReallocCall(from: Option<int>, size: nat)
    | PageCall(page: nat, take: bool)

  /** Page `page` is part of the arena at page `p`. */
  predicate InArena(s: State, p: int, page: nat) { p in s.arenas && p <= page < p + Pages(s.arenas[p]) }

  /** What malloc.c asks of its callers: only blocks in use are freed or resized, and a size is a `size_t`; and what
      palloc.c grants others: only free pages are taken, and none of an arena's is given back. */
  ghost predicate Legal(s: State, c: Call) {
    match c
    case MallocCall(size) => size < TWO64
    case FreeCall(b) => b in s.live
    case ReallocCall(b, size) => size < TWO64 && (b.Some? ==> b.value in s.live)
    case PageCall(page, take) =>
      page < |s.used| && s.used[page] != take && forall p: int {:trigger InArena(s, p, page)} :: !InArena(s, p, page)
  }

  predicate CallBreaks(s: State, c: Call) {
    match c
    case MallocCall(size) => Breaks(s, size)
    case FreeCall(_) => false
    case ReallocCall(_, size) => Breaks(s, size)
    case PageCall(_, _) => false
  }

  ghost function Step(s: State, c: Call): State
    requires Inv(s) && Legal(s, c)
  {
    match c
    case MallocCall(size) => Malloc(s, size).state
    case FreeCall(b) => Free(s, b)
    case ReallocCall(b, size) => Realloc(s, b, size).state
    case PageCall(page, take) => s.(used := s.used[page := take])
  }

  lemma PageOk(s: State, page: nat, take: bool)
    requires Inv(s) && Legal(s, PageCall(page, take))
    ensures Inv(s.(used := s.used[page := take]))
  {
    var r := s.(used := s.used[page := take]);
    forall p: int ensures ArenaOk(r, p) { assert ArenaOk(s, p) && !InArena(s, p, page); }
    forall p: int, q: int ensures Apart(r, p, q) { assert Apart(s, p, q); }
    forall d: nat | d < DESCS ensures Distinct(r.free[d]) { assert Distinct(s.free[d]); }
    forall d: nat, b: int | d < DESCS ensures FreeOk(r, d, b) { assert FreeOk(s, d, b); }
    forall b: int ensures LiveOk(r, b) { assert LiveOk(s, b); }
    forall p: int ensures Inhabited(r, p) { assert Inhabited(s, p); }
  }

  lemma StepOkIff(s: State, c: Call)
    requires Inv(s) && Legal(s, c)
    ensures Inv(Step(s, c)) <==> !CallBreaks(s, c)
  {
    match c {
      case MallocCall(size) => MallocOk(s, size);
      case FreeCall(b) => FreeOkay(s, b);
      case ReallocCall(b, size) =>
        if b.Some? {
          if size > 0 { ReallocOk(s, b.value, size); } else { FreeOkay(s, b.value); }
        } else {
          MallocOk(s, size);
        }
      case PageCall(page, take) => PageOk(s, page, take);
    }
  }

  /** The heap before its first call; `used` are the pages that others have. */
  function EmptyHeap(used: seq<bool>, mem: Bytes): State {
    State(used, map[], seq(DESCS, _ => []), map[], mem)
  }

  lemma EmptyHeapOk(used: seq<bool>, mem: Bytes)
    requires |mem| == |used| * PGSIZE
    ensures Inv(EmptyHeap(used, mem))
  {
  }

  /** The states that calls from an empty heap go through, for as long as the heap is sound. */
  ghost predicate IsRun(states: seq<State>, calls: seq<Call>) {
    |states| == |calls| + 1 &&
    (exists used: seq<bool>, mem: Bytes :: |mem| == |used| * PGSIZE && states[0] == EmptyHeap(used, mem)) &&
    forall k: nat {:trigger Follows(states, calls, k)} :: k < |calls| ==> Follows(states, calls, k)
  }

  ghost predicate Follows(states: seq<State>, calls: seq<Call>, k: nat)
    requires k < |calls| == |states| - 1
  {
    Inv(states[k]) ==> Legal(states[k], calls[k]) && states[k + 1] == Step(states[k], calls[k])
  }

  /** The heap is sound after each of the first `k` calls. */
  ghost predicate SoundThrough(states: seq<State>, k: nat)
    requires k < |states|
  {
    Inv(states[k]) && (k > 0 ==> SoundThrough(states, k - 1))
  }

  /** None of the first `k` calls has a page count that wraps and is met. */
  predicate Careful(states: seq<State>, calls: seq<Call>, k: nat)
    requires k <= |calls| < |states|
  {
    k == 0 || (Careful(states, calls, k - 1) && !CallBreaks(states[k - 1], calls[k - 1]))
  }

  ghost predicate BlocksSound(s: State) {
    forall b, c :: b in s.live && c in s.live && b < c ==>
      b / PGSIZE in s.arenas && s.live[b] <= Capacity(s, b) && b + Capacity(s, b) <= c
  }

  /** In every run from an empty heap, other users of the page pool included, the heap stays sound if and only if no call has a page count that wraps and is
      met.  A sound heap's live blocks are large enough and pairwise disjoint. */
  lemma {:induction false} RunsKeepHeap(states: seq<State>, calls: seq<Call>, k: nat)
    requires IsRun(states, calls) && k < |states|
    ensures SoundThrough(states, k) <==> Careful(states, calls, k)
    ensures Careful(states, calls, k) ==> BlocksSound(states[k])
  {
    if k > 0 {
      RunsKeepHeap(states, calls, k - 1);
      if Careful(states, calls, k - 1) { RunStep(states, calls, k - 1); }
    } else {
      RunStart(states, calls);
    }
    if Careful(states, calls, k) { LiveBlocksApart(states[k]); }
  }

  lemma RunStart(states: seq<State>, calls: seq<Call>)
    requires IsRun(states, calls)
    ensures Inv(states[0])
  {
    var used: seq<bool>, mem: Bytes :| |mem| == |used| * PGSIZE && states[0] == EmptyHeap(used, mem);
    EmptyHeapOk(used, mem);
  }

  lemma RunStep(states: seq<State>, calls: seq<Call>, k: nat)
    requires IsRun(states, calls) && k < |calls| && Inv(states[k])
    ensures Inv(states[k + 1]) <==> !CallBreaks(states[k], calls[k])
  {
    assert Follows(states, calls, k);
    StepOkIff(states[k], calls[k]);
  }

  lemma LiveBlocksApart(s: State)
    requires Inv(s)
    ensures BlocksSound(s)
  {
    forall b, c | b in s.live && c in s.live && b < c
      ensures b / PGSIZE in s.arenas && s.live[b] <= Capacity(s, b) && b + Capacity(s, b) <= c
    {
      LiveFacts(s, b);
      LiveApart(s, b, c);
    }
  }

  // ---------------------------------------------------------------- the code

  /** `list_remove` on a list without duplicates. */
  function Without(l: seq<int>, x: int): seq<int>
    requires x in l
  {
    if l[0] == x then l[1..] else [l[0]] + Without(l[1..], x)
  }

  lemma {:induction false} WithoutIsDrop(l: seq<int>, x: int)
    requires Distinct(l) && x in l
    ensures Without(l, x) == Drop(l, {x})
    decreases |l|
  {
    DistinctTail(l);
    if l[0] == x {
      DropNothing(l[1..], x);
    } else {
      WithoutIsDrop(l[1..], x);
    }
  }

  lemma {:induction false} DropNothing(l: seq<int>, x: int)
    requires x !in l
    ensures Drop(l, {x}) == l
    decreases |l|
  {
    if l != [] { DropNothing(l[1..], x); }
  }

  lemma {:induction false} DropEmpty(l: seq<int>)
    ensures Drop(l, {}) == l
    decreases |l|
  {
    if l != [] { DropEmpty(l[1..]); }
  }

  class Heap {
    var used: seq<bool>
    var arenas: map<int, Arena>
    var free: seq<seq<int>>
    var mem: Bytes
    ghost var live: map<int, nat>

    ghost function Value(): State reads this { State(used, arenas, free, live, mem) }

    method FindDesc(size: nat) returns (d: nat)
      ensures d == Desc(size, 0)
    {
      d := 0;
      while d < DESCS && BlockSize(d) < size
        invariant d <= DESCS && Desc(size, 0) == Desc(size, d)
      {
        d := d + 1;
      }
    }

    /** Dividing a new page into blocks. */
    method BuildArena(d: nat, p: nat)
      requires Core(Value()) && d < DESCS && free[d] == [] && Run(used, p, 1, false)
      modifies this`used, this`arenas, this`free
      ensures Value() == NewArena(old(Value()), d, p)
    {
      used := used[p := true];
      arenas := arenas[p := Small(d, PerArena(d))];
      var l, i := free[d], 0;
      while i < PerArena(d)
        invariant i <= PerArena(d) && l == old(free[d]) + Blocks(p, d)[..i]
      {
        l := l + [Block(p, d, i)];
        assert Blocks(p, d)[..i + 1] == Blocks(p, d)[..i] + [Block(p, d, i)];
        i := i + 1;
      }
      assert Blocks(p, d)[..i] == Blocks(p, d);
      free := free[d := l];
    }

    method DoMalloc(size: nat) returns (at: Option<int>)
      requires Inv(Value()) && size < TWO64
      modifies this
      ensures Malloc(old(Value()), size) == Result(Value(), at)
      ensures Inv(Value()) <==> !Breaks(old(Value()), size)
    {
      MallocOk(Value(), size);
      if size == 0 { return None; }
      var d := FindDesc(size);
      if d == DESCS {
        var n := PageCnt(size);
        var p := FirstFit(used, 0, n, false);
        if p.None? { return None; }
        used := Filled(used, p.value, n, true);
        arenas := arenas[p.value := Big(n)];
        live := live[p.value * PGSIZE + HEADER := size];
        return Some(p.value * PGSIZE + HEADER);
      }
      if free[d] == [] {
        var p := FirstFit(used, 0, 1, false);
        if p.None? { return None; }
        NewArenaPop(Value(), d, p.value, size);
        BuildArena(d, p.value);
      }
      var b := TakeBlock(d, size);
      return Some(b);
    }

    /** The first free block of the descriptor. */
    method TakeBlock(d: nat, size: nat) returns (b: int)
      requires Core(Value()) && d < DESCS && free[d] != [] && 0 < size <= BlockSize(d)
      modifies this
      ensures b == old(free)[d][0] && b / PGSIZE in old(arenas) && old(arenas)[b / PGSIZE].Small?
      ensures Value() == Pop(old(Value()), d, size)
    {
      PopOk(Value(), d, size);
      b := free[d][0];
      free := free[d := free[d][1..]];
      var a := arenas[b / PGSIZE];
      arenas := arenas[b / PGSIZE := a.(freeCnt := a.freeCnt - 1)];
      live := live[b := size];
    }

    /** Taking all blocks of a free arena off the list. */
    method TakeApart(d: nat, p: nat)
      requires Core(Value()) && d < DESCS && p in arenas && arenas[p] == Small(d, PerArena(d))
      modifies this`used, this`arenas, this`free, this`mem
      ensures Value() == Dismantle(old(Value()), d, p)
    {
      DismantledOk(Value(), d, p);
      assert Distinct(free[d]);
      DropEmpty(free[d]);
      assert AllBlocks(p, d, 0) == {};
      var l, i := free[d], 0;
      while i < PerArena(d)
        invariant Value() == old(Value()) && i <= PerArena(d) && l == Drop(free[d], AllBlocks(p, d, i))
      {
        OneMoreGone(free[d], d, p, i);
        l := Without(l, Block(p, d, i));
        i := i + 1;
      }
      free := free[d := l];
      arenas := arenas - {p};
      used := used[p := false];
      mem := Memset(mem, p * PGSIZE, PGSIZE, 0xcc);
    }

    method DoFree(b: int)
      requires Inv(Value()) && b in live
      modifies this
      ensures Value() == Free(old(Value()), b) && Inv(Value())
    {
      FreeOkay(Value(), b);
      LiveFacts(Value(), b);
      var p := b / PGSIZE;
      match arenas[p] {
        case Big(n) =>
          mem := Memset(mem, p * PGSIZE, n * PGSIZE, 0xcc);
          used := Filled(used, p, n, false);
          arenas := arenas - {p};
          live := live - {b};
        case Small(d, cnt) =>
          PushedOk(Value(), b, d, p);
          mem := Memset(mem, b, BlockSize(d), 0xcc);
          free := free[d := [b] + free[d]];
          arenas := arenas[p := Small(d, cnt + 1)];
          live := live - {b};
          if cnt + 1 >= PerArena(d) {
            assert ArenaOk(Value(), p);
            TakeApart(d, p);
          }
      }
    }

    /** The memcpy of realloc. */
    method CopyBlock(b: int, c: int, size: nat)
      requires Core(Value()) && b in live && c in live && live[c] == size
      modifies this`mem
      ensures Value() == Copied(old(Value()), b, c, size)
    {
      LiveFacts(Value(), b);
      LiveFacts(Value(), c);
      var a := arenas[b / PGSIZE];
      var capacity := if a.Small? then BlockSize(a.desc) else PGSIZE * a.pages - b % PGSIZE;
      var n := if size < capacity then size else capacity;
      mem := mem[..c] + mem[b..b + n] + mem[c + n..];
    }

    /** `broken`: malloc handed out too small a block.  What the copy would then overwrite is not followed. */
    method DoRealloc(block: Option<int>, size: nat) returns (at: Option<int>, broken: bool)
      requires Inv(Value()) && size < TWO64 && (block.Some? ==> block.value in live)
      modifies this
      ensures Realloc(old(Value()), block, size) == Result(Value(), at)
      ensures broken <==> Breaks(old(Value()), size)
    {
      if size == 0 {
        if block.Some? { DoFree(block.value); }
        return None, false;
      }
      ghost var s := Value();
      MallocOk(s, size);
      at := DoMalloc(size);
      broken := at.Some? && size + HEADER + PGSIZE - 1 >= TWO64;
      if block.Some? && at.Some? && !broken {
        var b, c := block.value, at.value;
        CopiedOk(s, size, b);
        CopyBlock(b, c, size);
        DoFree(b);
      }
    }
  }

  lemma OneMoreGone(l: seq<int>, d: nat, p: nat, i: nat)
    requires d < DESCS && i < PerArena(d) && Distinct(l) && FreeSet(l, p) == AllBlocks(p, d, PerArena(d))
    ensures var b := Block(p, d, i); var rest := Drop(l, AllBlocks(p, d, i));
      b in rest && Without(rest, b) == Drop(l, AllBlocks(p, d, i + 1))
  {
    var b := Block(p, d, i);
    var gone := AllBlocks(p, d, i);
    assert b in AllBlocks(p, d, PerArena(d));
    BlockFacts(p, d, i);
    forall j | 0 <= j < i ensures Block(p, d, j) != b { BlockFacts(p, d, j); }
    DropMembers(l, gone, b);
    DropDistinct(l, gone);
    WithoutIsDrop(Drop(l, gone), b);
    DropTwice(l, gone, {b});
    assert AllBlocks(p, d, i + 1) == gone + {b};
  }
}
