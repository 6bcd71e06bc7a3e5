/**
 What malloc, free and realloc of pintos-kaist/threads/malloc.c do with the pages of the pool, which block is handed
 out, and realloc at its edges.
 */
module HeapCalls {
  import opened Wrappers
  import opened Arithmetic
  import opened Bitmaps
  import opened H = Malloc

  /** Page `q` is one of the arena at page `p`. */
  predicate Within(s: State, p: int, q: int) { p in s.arenas && p <= q < p + Pages(s.arenas[p]) }

  /** The seven block sizes, and nothing about them left open. */
  lemma SizesAre()
    ensures BlockSize(0) == 16 && BlockSize(1) == 32 && BlockSize(2) == 64 && BlockSize(3) == 128
    ensures BlockSize(4) == 256 && BlockSize(5) == 512 && BlockSize(6) == 1024
  {
  }

  /** A block of at most 1024 bytes is the smallest power of two from 16 on that holds the request; a bigger one has just the
      pages that it and its 24-byte header need. */
  lemma MallocFits(s: State, size: nat)
    requires Inv(s) && 0 < size < TWO64 && !Breaks(s, size) && Malloc(s, size).at.Some?
    ensures var r, b := Malloc(s, size).state, Malloc(s, size).at.value;
      b / PGSIZE in r.arenas && size <= Capacity(r, b) &&
      if size <= 1024
      then r.arenas[b / PGSIZE].Small? && Capacity(r, b) in {16, 32, 64, 128, 256, 512, 1024} && (Capacity(r, b) == 16 || Capacity(r, b) < 2 * size)
      else r.arenas[b / PGSIZE].Big? && b % PGSIZE == 24 && (r.arenas[b / PGSIZE].pages - 1) * 4096 < size + 24
  {
    MallocOk(s, size);
    var r, b, d := Malloc(s, size).state, Malloc(s, size).at.value, Desc(size, 0);
    LiveFacts(r, b);
    SizesAre();
    if d == DESCS {
      assert BlockSize(6) < size;
      BigFits(s, size);
    } else {
      if d > 0 { assert BlockSize(d - 1) < size; }
      SmallFits(s, size);
    }
  }

  lemma BigFits(s: State, size: nat)
    requires Inv(s) && 1024 < size < TWO64 && !Breaks(s, size) && Malloc(s, size).at.Some? && Desc(size, 0) == DESCS
    ensures var r, b := Malloc(s, size).state, Malloc(s, size).at.value;
      b / PGSIZE in r.arenas && r.arenas[b / PGSIZE].Big? && b % PGSIZE == 24 &&
      (r.arenas[b / PGSIZE].pages - 1) * 4096 < size + 24
  {
    PageCntEnoughIff(size);
    var p := FirstFit(s.used, 0, PageCnt(size), false).value;
    DivUnique(p * PGSIZE + HEADER, PGSIZE, p);
  }

  lemma SmallFits(s: State, size: nat)
    requires Inv(s) && 0 < size < TWO64 && Malloc(s, size).at.Some? && Desc(size, 0) < DESCS
    ensures var r, b, d := Malloc(s, size).state, Malloc(s, size).at.value, Desc(size, 0);
      b / PGSIZE in r.arenas && r.arenas[b / PGSIZE].Small? && r.arenas[b / PGSIZE].desc == d
    ensures var d := Desc(size, 0); s.free[d] != [] ==> Malloc(s, size).at == Some(s.free[d][0])
  {
    var d := Desc(size, 0);
    if s.free[d] == [] {
      var p := FirstFit(s.used, 0, 1, false).value;
      NewArenaPop(s, d, p, size);
      var a := NewArena(s, d, p);
      assert FreeOk(a, d, a.free[d][0]);
    } else {
      assert FreeOk(s, d, s.free[d][0]);
    }
  }

  /** malloc marks just the pages of the block's arena as used, where that is new, and makes no other arena. */
  lemma MallocPages(s: State, size: nat, q: nat)
    requires Inv(s) && size < TWO64 && !Breaks(s, size) && q < |s.used|
    ensures var r := Malloc(s, size);
      && |r.state.used| == |s.used|
      && (r.at.None? ==> r.state == s)
      && (r.at.Some? ==>
            && r.state.arenas.Keys == s.arenas.Keys + {r.at.value / PGSIZE}
            && (r.state.used[q] <==> s.used[q] || Within(r.state, r.at.value / PGSIZE, q)))
  {
    MallocOk(s, size);
    var r, d := Malloc(s, size), Desc(size, 0);
    if r.at.Some? {
      LiveFacts(r.state, r.at.value);
      if d == DESCS {
        BigPages(s, size, q);
      } else {
        SmallFits(s, size);
        SmallPages(s, size, q);
      }
    }
  }

  lemma BigPages(s: State, size: nat, q: nat)
    requires Inv(s) && size < TWO64 && Malloc(s, size).at.Some? && Desc(size, 0) == DESCS && q < |s.used|
    ensures var r := Malloc(s, size);
      && |r.state.used| == |s.used| && r.state.arenas.Keys == s.arenas.Keys + {r.at.value / PGSIZE}
      && (r.state.used[q] <==> s.used[q] || Within(r.state, r.at.value / PGSIZE, q))
  {
    var p := FirstFit(s.used, 0, PageCnt(size), false).value;
    DivUnique(p * PGSIZE + HEADER, PGSIZE, p);
  }

  lemma SmallPages(s: State, size: nat, q: nat)
    requires Inv(s) && 0 < size < TWO64 && Malloc(s, size).at.Some? && Desc(size, 0) < DESCS && q < |s.used|
    ensures var r := Malloc(s, size);
      && |r.state.used| == |s.used| && r.state.arenas.Keys == s.arenas.Keys + {r.at.value / PGSIZE}
      && (r.state.used[q] <==> s.used[q] || Within(r.state, r.at.value / PGSIZE, q))
  {
    var d := Desc(size, 0);
    if s.free[d] == [] {
      var p := FirstFit(s.used, 0, 1, false).value;
      NewArenaPop(s, d, p, size);
      BlockFacts(p, d, 0);
    } else {
      var b := s.free[d][0];
      assert FreeOk(s, d, b) && ArenaOk(s, b / PGSIZE);
    }
  }

  /** free marks just the pages of the block's arena as unused, when the arena goes, and drops no other arena.  The block's
      bytes are overwritten. */
  lemma FreePages(s: State, b: int, q: nat)
    requires Inv(s) && b in s.live && q < |s.used|
    ensures b / PGSIZE in s.arenas
    ensures var r, p := Free(s, b), b / PGSIZE;
      && |r.used| == |s.used| && |r.mem| == |s.mem|
      && (r.arenas.Keys == s.arenas.Keys || r.arenas.Keys == s.arenas.Keys - {p})
      && (r.used[q] <==> s.used[q] && !(p !in r.arenas && Within(s, p, q)))
      && forall x :: b <= x < b + Capacity(s, b) && 0 <= x < |s.mem| ==> r.mem[x] == 0xcc
  {
    LiveFacts(s, b);
    var p := b / PGSIZE;
    match s.arenas[p] {
      case Big(n) =>
      case Small(d, cnt) =>
        PushedOk(s, b, d, p);
        if cnt + 1 >= PerArena(d) {
          var t := Pushed(s, b, d, p);
          assert ArenaOk(t, p);
          DismantledOk(t, d, p);
          MulMono(p + 1, p + 1, PGSIZE);
        }
    }
  }

  /** realloc to nothing frees the block and returns null; every other block keeps its bytes. */
  lemma ReallocToNothing(s: State, b: int, c: int)
    requires Inv(s) && b in s.live
    ensures var r := Realloc(s, Some(b), 0);
      && r.at.None? && Inv(r.state) && r.state.live == s.live - {b}
      && (c in s.live && c != b ==> Kept(s, r.state, c))
  {
    FreeOkay(s, b);
    if c in s.live && c != b { FreeKeeps(s, b, c); }
  }

  /** realloc of the null pointer: nothing for nothing, and otherwise a block as from malloc. */
  lemma ReallocOfNull(s: State, size: nat)
    requires Inv(s) && size < TWO64
    ensures Realloc(s, None, size) == Malloc(s, size)
    ensures size == 0 ==> Realloc(s, None, size) == Result(s, None)
  {
  }

  /** A freed block goes to the front of its list, unless its arena goes; no other list is touched. */
  lemma FreePushes(s: State, b: int)
    requires Inv(s) && b in s.live
    ensures b / PGSIZE in s.arenas
    ensures var r, a := Free(s, b), s.arenas[b / PGSIZE];
      |r.free| == |s.free| == DESCS &&
      if a.Big? then r.free == s.free
      else
        && (forall e :: 0 <= e < DESCS && e != a.desc ==> r.free[e] == s.free[e])
        && (b / PGSIZE in r.arenas && a.desc < DESCS ==> r.free[a.desc] == [b] + s.free[a.desc])
  {
    LiveFacts(s, b);
    var p := b / PGSIZE;
    match s.arenas[p] {
      case Big(n) =>
      case Small(d, cnt) =>
        PushedOk(s, b, d, p);
        if cnt + 1 >= PerArena(d) {
          assert ArenaOk(Pushed(s, b, d, p), p);
          DismantledOk(Pushed(s, b, d, p), d, p);
        }
    }
  }

  /** The block freed last is the first to be handed out again, to the next request of its size. */
  lemma FreedBlockIsNext(s: State, b: int, size: nat)
    requires Inv(s) && b in s.live && 0 < size < TWO64 && Inv(Free(s, b))
    requires b / PGSIZE in s.arenas && s.arenas[b / PGSIZE].Small? && b / PGSIZE in Free(s, b).arenas
    requires Desc(size, 0) == s.arenas[b / PGSIZE].desc
    ensures H.Malloc(Free(s, b), size).at == Some(b)
  {
    LiveFacts(s, b);
    assert ArenaOk(s, b / PGSIZE);
    FreePushes(s, b);
  }

  /** malloc takes the front of its list.  With an empty list it first fills it from the first free page: the block behind the
      24-byte header is handed out, and the others of that page are listed in the order of their addresses. */
  lemma MallocTakesFirst(s: State, size: nat) returns (d: nat)
    requires Inv(s) && 0 < size <= 1024 && H.Malloc(s, size).at.Some?
    ensures d < DESCS && size <= BlockSize(d) && (d > 0 ==> BlockSize(d - 1) < size)
    ensures var r, b := H.Malloc(s, size).state, H.Malloc(s, size).at.value;
      && |r.free| == |s.free| == DESCS && (forall e :: 0 <= e < DESCS && e != d ==> r.free[e] == s.free[e])
      && (s.free[d] != [] ==> [b] + r.free[d] == s.free[d])
      && (s.free[d] == [] ==>
            && b % 4096 == 24 && (forall p :: 0 <= p < b / 4096 && p < |s.used| ==> s.used[p])
            && |r.free[d]| == (4096 - 24) / BlockSize(d) - 1
            && forall i :: 0 <= i < |r.free[d]| ==> r.free[d][i] == b + (i + 1) * BlockSize(d))
  {
    d := Desc(size, 0);
    SizesAre();
    if s.free[d] == [] {
      FilledFirst(s, size, d);
    } else {
      SmallFits(s, size);
    }
  }

  lemma FilledFirst(s: State, size: nat, d: nat)
    requires Inv(s) && 0 < size <= 1024 && H.Malloc(s, size).at.Some? && d == Desc(size, 0) < DESCS && s.free[d] == []
    ensures var r, b := H.Malloc(s, size).state, H.Malloc(s, size).at.value;
      && |r.free| == DESCS && (forall e :: 0 <= e < DESCS && e != d ==> r.free[e] == s.free[e])
      && b % 4096 == 24 && (forall p :: 0 <= p < b / 4096 && p < |s.used| ==> s.used[p])
      && |r.free[d]| == (4096 - 24) / BlockSize(d) - 1
      && forall i :: 0 <= i < |r.free[d]| ==> r.free[d][i] == b + (i + 1) * BlockSize(d)
  {
    var p := FirstFit(s.used, 0, 1, false).value;
    NewArenaPop(s, d, p, size);
    BlockFacts(p, d, 0);
    DivUnique(p * PGSIZE + HEADER, PGSIZE, p);
    forall q | 0 <= q < p ensures s.used[q] { assert !Run(s.used, q, 1, false); }
    RestOfPage(p, d, s.free[d]);
  }

  lemma RestOfPage(p: nat, d: nat, l: seq<int>)
    requires d < DESCS && l == []
    ensures var rest := (l + Blocks(p, d))[1..];
      |rest| == (4096 - 24) / BlockSize(d) - 1 &&
      forall i :: 0 <= i < |rest| ==> rest[i] == Block(p, d, 0) + (i + 1) * BlockSize(d)
  {
    assert l + Blocks(p, d) == Blocks(p, d);
  }
}
