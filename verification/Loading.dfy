/**
 Loading a program segment, eagerly and lazily: the two versions of `load_segment`,
 `lazy_load_segment` and the header arithmetic of `load` in pintos-kaist/userprog/process.c, and
 the first fault of pintos-kaist/vm/uninit.c.

 Pages are numbered; addresses are page numbers times the page size.  `file` is the executable's
 content, which writers cannot change while it runs.
 */
module Loading {
  import opened InodeIO

  const PGSIZE: nat := 4096
  const TWO32: nat := 0x1_0000_0000
  const KERN_BASE: nat := 0x80_0400_0000

  /** What `file_read_at` returns. */
  function FileRead(file: Bytes, ofs: nat, size: nat): (r: Bytes)
    ensures |r| <= size && (|r| == size <==> size == 0 || ofs + size <= |file|)
  {
    if ofs < |file| then file[ofs..ofs + Min(size, |file| - ofs)] else []
  }

  function Zeros(n: nat): (r: Bytes)
    ensures |r| == n
  {
    seq(n, _ => 0)
  }

  /** `n` bytes of the file from `ofs` on, or as many as there are, and zeros to the end of the page. */
  function Padded(file: Bytes, ofs: nat, n: nat): (r: Bytes)
    requires n <= PGSIZE
    ensures |r| == PGSIZE
  {
    var b := FileRead(file, ofs, n);
    b + Zeros(PGSIZE - |b|)
  }

  /** How many of the segment's `read` file bytes lie before its page `j`. */
  function Before(read: nat, j: nat): nat { Min(read, j * PGSIZE) }

  /** Page `j` of the segment's image. */
  function PageAt(file: Bytes, ofs: nat, read: nat, j: nat): (r: Bytes)
    ensures |r| == PGSIZE
  {
    Padded(file, ofs + Before(read, j), Before(read, j + 1) - Before(read, j))
  }

  function Image(file: Bytes, ofs: nat, read: nat): nat -> Bytes { (j: nat) => PageAt(file, ofs, read, j) }

  /** `m` with entries `upage` to `upage + n` set from `page`. */
  function Fill<V>(m: map<nat, V>, page: nat -> V, upage: nat, n: nat): map<nat, V> {
    if n == 0 then m else Fill(m, page, upage, n - 1)[upage + n - 1 := page(n - 1)]
  }

  lemma {:induction false} FillAt<V>(m: map<nat, V>, page: nat -> V, upage: nat, n: nat, p: nat)
    ensures p in Fill(m, page, upage, n) <==> p in m || upage <= p < upage + n
    ensures p in Fill(m, page, upage, n) ==>
      Fill(m, page, upage, n)[p] == if upage <= p < upage + n then page(p - upage) else m[p]
    decreases n
  {
    if n > 0 { FillAt(m, page, upage, n - 1, p); }
  }

  lemma FillExtends<V>(m: map<nat, V>, page: nat -> V, upage: nat, n: nat, m1: map<nat, V>, m2: map<nat, V>, v: V)
    requires m1 == Fill(m, page, upage, n) && m2 == m1[upage + n := v] && v == page(n)
    ensures m2 == Fill(m, page, upage, n + 1)
  {
  }

  /** What both loaders' counters say after `j` of `n` pages. */
  ghost predicate Cursor(read: nat, n: nat, j: nat, r: int, z: int) {
    j <= n && r == read - Before(read, j) && 0 <= r && 0 <= z && r + z == (n - j) * PGSIZE
  }

  lemma CursorStep(read: nat, n: nat, j: nat, r: int, z: int)
    requires Cursor(read, n, j, r, z) && (r > 0 || z > 0)
    ensures j < n && Before(read, j + 1) - Before(read, j) == Min(r, PGSIZE)
    ensures Cursor(read, n, j + 1, r - Min(r, PGSIZE), z - (PGSIZE - Min(r, PGSIZE)))
  {
  }

  lemma CursorEnds(read: nat, n: nat, j: nat, r: int, z: int)
    requires Cursor(read, n, j, r, z) && r == 0 && z == 0
    ensures j == n && Before(read, n) == read
  {
  }

  /** What a lazy page remembers. */
  datatype Aux = Aux(ofs: nat, read: nat)

  predicate CanMap(memory: nat -> bool, used: set<nat>, p: nat) { memory(p) && p !in used }

  /** Memory is there for pages `upage` to `upage + n`, and none of them is in use. */
  ghost predicate Room(memory: nat -> bool, used: set<nat>, upage: nat, n: nat) {
    forall p: nat {:trigger CanMap(memory, used, p)} :: upage <= p < upage + n ==> CanMap(memory, used, p)
  }

  lemma RoomStep(memory: nat -> bool, used: set<nat>, upage: nat, j: nat, n: nat)
    requires Room(memory, used, upage, j) && j < n
    ensures Room(memory, used, upage, j + 1) <==> memory(upage + j) && upage + j !in used
    ensures !(memory(upage + j) && upage + j !in used) ==> !Room(memory, used, upage, n)
  {
    assert CanMap(memory, used, upage + j) <==> memory(upage + j) && upage + j !in used;
  }

  /** `lazy_load_segment`: the read is cut at the end of the file before it is made. Behind the end the
      unsigned difference is huge and cuts nothing. */
  function LazyPage(file: Bytes, aux: Aux): (r: Bytes) {
    var wanted := Min(aux.read, PGSIZE);
    var n := if aux.ofs <= |file| then Min(wanted, |file| - aux.ofs) else wanted;
    var b := FileRead(file, aux.ofs, n);
    if |b| == n then b + Zeros(PGSIZE - n) else b + Zeros(PGSIZE - n + (n - |b|))
  }

  class AddressSpace {
    var mem: map<nat, Bytes>
    var pending: map<nat, Aux>

    /** One page of the eager loader. */
    method LoadPage(file: Bytes, pos: nat, up: nat, pageRead: nat, memory: nat -> bool) returns (ok: bool)
      requires pageRead <= PGSIZE
      modifies this`mem
      ensures ok <==> memory(up) && (pageRead == 0 || pos + pageRead <= |file|) && up !in old(mem)
      ensures mem == if ok then old(mem)[up := Padded(file, pos, pageRead)] else old(mem)
    {
      if !memory(up) { return false; }
      var b := FileRead(file, pos, pageRead);
      if |b| != pageRead { return false; }
      var kpage := b + Zeros(PGSIZE - pageRead);
      if up in mem { return false; }
      mem := mem[up := kpage];
      return true;
    }

    /** The eager loader.  It succeeds exactly when the file is long enough, memory suffices and no page
        is in use; then the image is mapped.  On failure the pages mapped so far stay. */
    method LoadEager(file: Bytes, ofs: nat, upage: nat, read: nat, zero: nat, memory: nat -> bool) returns (ok: bool)
      requires (read + zero) % PGSIZE == 0
      modifies this`mem
      ensures var n := (read + zero) / PGSIZE;
        ok <==> (read == 0 || ofs + read <= |file|) && Room(memory, old(mem).Keys, upage, n)
      ensures ok ==> mem == Fill(old(mem), Image(file, ofs, read), upage, (read + zero) / PGSIZE)
      ensures exists j :: 0 <= j <= (read + zero) / PGSIZE && mem == Fill(old(mem), Image(file, ofs, read), upage, j)
    {
      ghost var n := (read + zero) / PGSIZE;
      ghost var before, image := mem, Image(file, ofs, read);
      ghost var j := 0;
      var pos, up, r, z := ofs, upage, read, zero;
      while r > 0 || z > 0
        invariant Cursor(read, n, j, r, z) && up == upage + j && pos == ofs + Before(read, j)
        invariant Before(read, j) == 0 || pos <= |file|
        invariant Room(memory, before.Keys, upage, j)
        invariant mem == Fill(before, image, upage, j)
        decreases r + z
      {
        CursorStep(read, n, j, r, z);
        FillAt(before, image, upage, j, up);
        RoomStep(memory, before.Keys, upage, j, n);
        ghost var mem0 := mem;
        var pageRead := Min(r, PGSIZE);
        var loaded := LoadPage(file, pos, up, pageRead, memory);
        if !loaded { return false; }
        FillExtends(before, image, upage, j, mem0, mem, Padded(file, pos, pageRead));
        pos := pos + pageRead;
        r := r - pageRead;
        z := z - (PGSIZE - pageRead);
        up := up + 1;
        j := j + 1;
      }
      CursorEnds(read, n, j, r, z);
      return true;
    }

    /** The lazy loader only notes what each page will need. */
    method LoadLazy(ofs: nat, upage: nat, read: nat, zero: nat, memory: nat -> bool) returns (ok: bool)
      requires (read + zero) % PGSIZE == 0
      modifies this`pending
      ensures var n := (read + zero) / PGSIZE;
        ok <==> Room(memory, old(pending).Keys + mem.Keys, upage, n)
      ensures ok ==> pending == Fill(old(pending), Notes(ofs, read), upage, (read + zero) / PGSIZE)
    {
      ghost var n := (read + zero) / PGSIZE;
      ghost var before := pending;
      ghost var j := 0;
      var o, up, r, z := ofs, upage, read, zero;
      while r > 0 || z > 0
        invariant Cursor(read, n, j, r, z) && up == upage + j && o == ofs + Before(read, j)
        invariant Room(memory, before.Keys + mem.Keys, upage, j)
        invariant pending == Fill(before, Notes(ofs, read), upage, j)
        decreases r + z
      {
        CursorStep(read, n, j, r, z);
        FillAt(before, Notes(ofs, read), upage, j, up);
        RoomStep(memory, before.Keys + mem.Keys, upage, j, n);
        if !memory(up) { return false; }
        if up in pending || up in mem { return false; }
        pending := pending[up := Aux(o, r)];
        var pageRead := Min(r, PGSIZE);
        r := r - pageRead;
        z := z - (PGSIZE - pageRead);
        o := o + pageRead;
        up := up + 1;
        j := j + 1;
      }
      CursorEnds(read, n, j, r, z);
      return true;
    }

    /** The first fault on a page turns its note into its bytes; the view of memory does not change. */
    method Fault(file: Bytes, p: nat)
      modifies this
      ensures View(Loader(file), mem, pending) == old(View(Loader(file), mem, pending))
      ensures p in old(mem) || p in old(pending) ==> p in mem && mem[p] == old(View(Loader(file), mem, pending))[p]
      ensures p !in pending && forall q :: q != p ==> (q in mem <==> q in old(mem)) && (q in pending <==> q in old(pending))
    {
      if p in pending {
        mem := mem[p := LazyPage(file, pending[p])];
        pending := pending - {p};
      }
    }

    /** Faults in any order, any number of times. */
    method Faults(file: Bytes, order: seq<nat>)
      modifies this
      ensures View(Loader(file), mem, pending) == old(View(Loader(file), mem, pending))
      ensures forall p :: p in order && (p in old(mem) || p in old(pending)) ==>
        p in mem && mem[p] == old(View(Loader(file), mem, pending))[p]
      ensures pending.Keys <= old(pending).Keys && forall p :: p in order ==> p !in pending
    {
      var i := 0;
      while i < |order|
        invariant pending.Keys <= old(pending).Keys
        invariant i <= |order| && View(Loader(file), mem, pending) == old(View(Loader(file), mem, pending))
        invariant forall k :: 0 <= k < i ==> order[k] !in pending
      {
        Fault(file, order[i]);
        i := i + 1;
      }
      forall p | p in order && (p in old(mem) || p in old(pending))
        ensures p in mem && mem[p] == old(View(Loader(file), mem, pending))[p]
      {
        assert p in View(Loader(file), mem, pending);
      }
    }
  }

  function Notes(ofs: nat, read: nat): nat -> Aux {
    (j: nat) => Aux(ofs + Before(read, j), read - Before(read, j))
  }

  /** What the program sees: loaded pages, and the pages it would get on a fault. */
  function View<V>(load: Aux -> V, mem: map<nat, V>, pending: map<nat, Aux>): map<nat, V> {
    map p | p in mem.Keys + pending.Keys :: if p in pending then load(pending[p]) else mem[p]
  }

  function Loader(file: Bytes): Aux -> Bytes { (aux: Aux) => LazyPage(file, aux) }

  lemma LazyIsPadded(file: Bytes, aux: Aux)
    ensures LazyPage(file, aux) == Padded(file, aux.ofs, Min(aux.read, PGSIZE))
  {
  }

  lemma PagesAgree(file: Bytes, ofs: nat, read: nat, j: nat)
    ensures Loader(file)(Notes(ofs, read)(j)) == Image(file, ofs, read)(j)
  {
    LazyIsPadded(file, Notes(ofs, read)(j));
    assert Before(read, j + 1) - Before(read, j) == Min(read - Before(read, j), PGSIZE);
  }

  lemma FillThenView<V>(load: Aux -> V, notes: nat -> Aux, image: nat -> V, upage: nat, n: nat,
                        mem: map<nat, V>, pending: map<nat, Aux>)
    requires forall p: nat :: upage <= p < upage + n ==> p !in mem
    requires forall j: nat :: load(notes(j)) == image(j)
    ensures View(load, mem, Fill(pending, notes, upage, n)) == Fill(View(load, mem, pending), image, upage, n)
  {
    var lazy := View(load, mem, Fill(pending, notes, upage, n));
    var eager := Fill(View(load, mem, pending), image, upage, n);
    forall p: nat ensures (p in lazy <==> p in eager) && (p in lazy ==> lazy[p] == eager[p]) {
      FillAt(pending, notes, upage, n, p);
      FillAt(View(load, mem, pending), image, upage, n, p);
    }
  }

  /** Lazy loading refines eager loading: the view the lazy loader's notes give is the eager image. */
  lemma LazyIsEager(file: Bytes, ofs: nat, read: nat, upage: nat, n: nat, mem: map<nat, Bytes>, pending: map<nat, Aux>)
    requires forall p: nat :: upage <= p < upage + n ==> p !in mem
    ensures View(Loader(file), mem, Fill(pending, Notes(ofs, read), upage, n)) ==
            Fill(View(Loader(file), mem, pending), Image(file, ofs, read), upage, n)
  {
    forall j: nat ensures Loader(file)(Notes(ofs, read)(j)) == Image(file, ofs, read)(j) {
      PagesAgree(file, ofs, read, j);
    }
    FillThenView(Loader(file), Notes(ofs, read), Image(file, ofs, read), upage, n, mem, pending);
  }

  lemma AllLoaded<V>(load: Aux -> V, mem: map<nat, V>, pending: map<nat, Aux>)
    requires pending.Keys == {}
    ensures View(load, mem, pending) == mem
  {
  }

  /** The lazy loader's notes before any fault, and their view. */
  lemma NotesShow(file: Bytes, ofs: nat, read: nat, upage: nat, n: nat, before: map<nat, Bytes>, notes: map<nat, Aux>)
    requires notes == Fill(map[], Notes(ofs, read), upage, n)
    requires forall p: nat :: upage <= p < upage + n ==> p !in before
    ensures View(Loader(file), before, notes) == Fill(before, Image(file, ofs, read), upage, n)
    ensures forall p: nat :: p in notes <==> upage <= p < upage + n
    ensures forall p: nat :: upage <= p < upage + n ==> p in View(Loader(file), before, notes)
  {
    LazyIsEager(file, ofs, read, upage, n, before, map[]);
    AllLoaded(Loader(file), before, map[]);
    forall p: nat ensures p in notes <==> upage <= p < upage + n {
      FillAt(map[], Notes(ofs, read), upage, n, p);
    }
  }

  /** A fresh address space after the eager loader. */
  method LoadedEagerly(file: Bytes, ofs: nat, upage: nat, read: nat, zero: nat, memory: nat -> bool, before: map<nat, Bytes>)
    returns (ok: bool, mem: map<nat, Bytes>)
    requires (read + zero) % PGSIZE == 0
    ensures var n := (read + zero) / PGSIZE;
      (ok <==> (read == 0 || ofs + read <= |file|) && Room(memory, before.Keys, upage, n)) &&
      (ok ==> mem == Fill(before, Image(file, ofs, read), upage, n))
  {
    var a := new AddressSpace;
    a.mem, a.pending := before, map[];
    ok := a.LoadEager(file, ofs, upage, read, zero, memory);
    mem := a.mem;
  }

  /** One after the lazy loader and some first faults. */
  method LoadedLazily(file: Bytes, ofs: nat, upage: nat, read: nat, zero: nat, memory: nat -> bool, before: map<nat, Bytes>,
                      touched: seq<nat>) returns (ok: bool, mem: map<nat, Bytes>)
    requires (read + zero) % PGSIZE == 0
    ensures var n := (read + zero) / PGSIZE; var image := Fill(before, Image(file, ofs, read), upage, n);
      (ok <==> Room(memory, before.Keys, upage, n)) &&
      (ok ==> forall p :: p in touched && upage <= p < upage + n ==> p in image && p in mem && mem[p] == image[p]) &&
      (ok && (forall p: nat :: upage <= p < upage + n ==> p in touched) ==> mem == image)
  {
    ghost var n := (read + zero) / PGSIZE;
    var b := new AddressSpace;
    b.mem, b.pending := before, map[];
    assert b.pending.Keys + before.Keys == before.Keys;
    ok := b.LoadLazy(ofs, upage, read, zero, memory);
    if ok {
      RoomIsFree(memory, before, upage, n);
      NotesShow(file, ofs, read, upage, n, before, b.pending);
      b.Faults(file, touched);
      if b.pending.Keys == {} { AllLoaded(Loader(file), b.mem, b.pending); }
    }
    mem := b.mem;
  }

  lemma RoomIsFree(memory: nat -> bool, before: map<nat, Bytes>, upage: nat, n: nat)
    requires Room(memory, before.Keys, upage, n)
    ensures forall p: nat :: upage <= p < upage + n ==> p !in before
  {
    forall p: nat | upage <= p < upage + n ensures p !in before {
      assert CanMap(memory, before.Keys, p);
    }
  }

  /** One segment loaded both ways into the same memory.  The eager loader succeeds exactly when the lazy one does and
      the file is long enough.  Then every page of the segment that has been touched, in any order, holds what
      the eager loader put there, and once all have been touched the two memories are the same. */
  method LoadBothWays(file: Bytes, ofs: nat, upage: nat, read: nat, zero: nat, memory: nat -> bool,
                      before: map<nat, Bytes>, touched: seq<nat>)
    returns (eagerOk: bool, lazyOk: bool, eager: map<nat, Bytes>, lazy: map<nat, Bytes>)
    requires (read + zero) % PGSIZE == 0
    ensures eagerOk <==> lazyOk && (read == 0 || ofs + read <= |file|)
    ensures eagerOk ==> forall p :: p in touched && upage <= p < upage + (read + zero) / PGSIZE ==>
      p in eager && p in lazy && lazy[p] == eager[p]
    ensures eagerOk && (forall p: nat :: upage <= p < upage + (read + zero) / PGSIZE ==> p in touched) ==> lazy == eager
  {
    eagerOk, eager := LoadedEagerly(file, ofs, upage, read, zero, memory, before);
    lazyOk, lazy := LoadedLazily(file, ofs, upage, read, zero, memory, before, touched);
  }

  // ---------------------------------------------------------------- program headers

  const TWO64: nat := 0x1_0000_0000_0000_0000

  /** The fields of a PT_LOAD header, each of 64 bits. */
  datatype Phdr = Phdr(offset: nat, vaddr: nat, filesz: nat, memsz: nat)

  predicate Fits64(ph: Phdr) { ph.offset < TWO64 && ph.vaddr < TWO64 && ph.filesz < TWO64 && ph.memsz < TWO64 }

  /** `validate_segment`, with its 64-bit sums. */
  predicate Validate(ph: Phdr, fileLength: nat) {
    ph.offset % PGSIZE == ph.vaddr % PGSIZE &&
    ph.offset <= fileLength &&
    ph.memsz >= ph.filesz &&
    ph.memsz != 0 &&
    ph.vaddr < KERN_BASE &&
    (ph.vaddr + ph.memsz) % TWO64 < KERN_BASE &&
    (ph.vaddr + ph.memsz) % TWO64 >= ph.vaddr &&
    ph.vaddr >= PGSIZE
  }

  function RoundUp(x: nat): nat { (x + PGSIZE - 1) / PGSIZE * PGSIZE }

  /** The span of whole pages the segment needs. */
  function Span(ph: Phdr): nat { RoundUp(ph.vaddr % PGSIZE + ph.memsz) }

  /** The two counts as `load` stores them, in 32 bits. */
  function ReadBytes(ph: Phdr): nat {
    if ph.filesz > 0 then (ph.vaddr % PGSIZE + ph.filesz) % TWO32 else 0
  }

  function ZeroBytes(ph: Phdr): nat { ((Span(ph) - ReadBytes(ph)) % TWO64) % TWO32 }

  lemma SpanFacts(ph: Phdr)
    ensures Span(ph) % PGSIZE == 0 && ph.vaddr % PGSIZE + ph.memsz <= Span(ph) < ph.vaddr % PGSIZE + ph.memsz + PGSIZE
  {
  }

  /** What a header must meet, without the wrapping: it is accepted exactly when file and memory offset agree within the
      page, the data begins inside the file, the segment is not empty and no smaller in memory than in the
      file, and it lies between the first page and the kernel. */
  lemma ValidateIff(ph: Phdr, fileLength: nat)
    requires Fits64(ph)
    ensures Validate(ph, fileLength) <==>
      && ph.offset % 4096 == ph.vaddr % 4096 && ph.offset <= fileLength
      && ph.filesz <= ph.memsz && 0 < ph.memsz
      && 4096 <= ph.vaddr && ph.vaddr + ph.memsz < 0x80_0400_0000
  {
  }

  /** A validated segment does not wrap. */
  lemma NoWrap(ph: Phdr, fileLength: nat)
    requires Fits64(ph) && Validate(ph, fileLength)
    ensures ph.vaddr + ph.memsz < KERN_BASE
  {
  }

  /** The assertion at the head of both loaders always holds, and the whole segment is loaded if and only if
      neither count was cut to 32 bits. */
  lemma LoadsWholeIff(ph: Phdr, fileLength: nat)
    requires Fits64(ph) && Validate(ph, fileLength)
    ensures (ReadBytes(ph) + ZeroBytes(ph)) % PGSIZE == 0
    ensures var read := if ph.filesz > 0 then ph.vaddr % PGSIZE + ph.filesz else 0;
      ReadBytes(ph) + ZeroBytes(ph) == Span(ph) <==> read < TWO32 && Span(ph) - read < TWO32
  {
    NoWrap(ph, fileLength);
    SpanFacts(ph);
    var read := if ph.filesz > 0 then ph.vaddr % PGSIZE + ph.filesz else 0;
    Cut(read);
    Below64(Span(ph) - ReadBytes(ph));
    CutCounts(Span(ph), read, ReadBytes(ph), ZeroBytes(ph));
  }

  lemma Below64(x: int)
    requires 0 <= x < TWO64
    ensures x % TWO64 == x
  {
  }

  /** Two counts that should add up to `span`, cut to 32 bits. */
  lemma CutCounts(span: nat, read: nat, r: nat, z: nat)
    requires span % PGSIZE == 0 && read <= span && r == read % TWO32 && r <= span && z == (span - r) % TWO32
    ensures (r + z) % PGSIZE == 0 && (r + z == span <==> read < TWO32 && span - read < TWO32)
  {
    var d := span - r;
    Cut(read);
    Cut(d);
    assert r + z == span - d / TWO32 * TWO32;
    Multiple(span, d / TWO32);
  }

  lemma Cut(x: nat)
    ensures x == x / TWO32 * TWO32 + x % TWO32 && (x % TWO32 == x <==> x < TWO32)
    ensures x / TWO32 == 0 <==> x < TWO32
  {
  }

  lemma Multiple(x: int, k: int)
    requires x % PGSIZE == 0
    ensures (x - k * TWO32) % PGSIZE == 0
  {
    assert x - k * TWO32 == PGSIZE * (x / PGSIZE - k * 0x10_0000);
  }

  /** One byte of the image: a file byte while they last, then zero. */
  lemma ImageByte(file: Bytes, ofs: nat, read: nat, j: nat, k: nat)
    requires k < PGSIZE
    ensures PageAt(file, ofs, read, j)[k] ==
      if j * PGSIZE + k < read && ofs + j * PGSIZE + k < |file| then file[ofs + j * PGSIZE + k] else 0
  {
    var n := Before(read, j + 1) - Before(read, j);
    var b := FileRead(file, ofs + Before(read, j), n);
    if j * PGSIZE + k < read {
      assert Before(read, j) == j * PGSIZE;
    }
  }

  lemma Locate(v: nat, i: nat, span: nat)
    requires v % PGSIZE + i < span && span % PGSIZE == 0
    ensures v / PGSIZE <= (v + i) / PGSIZE < v / PGSIZE + span / PGSIZE
    ensures ((v + i) / PGSIZE - v / PGSIZE) * PGSIZE + (v + i) % PGSIZE == v % PGSIZE + i
  {
  }

  /** An uncut file part covers exactly the first `filesz` bytes. */
  lemma ReadBytesCover(ph: Phdr, fileLength: nat, i: nat)
    requires Fits64(ph) && Validate(ph, fileLength) && ReadBytes(ph) + ZeroBytes(ph) == Span(ph)
    ensures ph.vaddr % PGSIZE + i < ReadBytes(ph) <==> i < ph.filesz
  {
    LoadsWholeIff(ph, fileLength);
    Cut(ph.vaddr % PGSIZE + ph.filesz);
  }

  lemma HeaderByte(file: Bytes, ofs: nat, read: nat, j: nat, k: nat, po: nat, i: nat, ph: Phdr)
    requires k < PGSIZE && j * PGSIZE + k == po + i && ofs + po == ph.offset
    requires po + i < read <==> i < ph.filesz
    ensures Image(file, ofs, read)(j)[k] == if i < ph.filesz && ph.offset + i < |file| then file[ph.offset + i] else 0
  {
    ImageByte(file, ofs, read, j, k);
    assert ofs + j * PGSIZE + k == ph.offset + i;
  }

  /** The program header rules: `filesz` bytes from `offset` appear at `vaddr`, and the rest of the `memsz` bytes
      are zero.  This is the byte at `vaddr + i`; both loaders give it, the eager one when the file is long enough,
      the lazy one with zeros for what the file lacks. */
  lemma ImageMatchesHeader(file: Bytes, ph: Phdr, i: nat) returns (j: nat, k: nat)
    requires Fits64(ph) && Validate(ph, |file|) && i < ph.memsz
    requires ReadBytes(ph) + ZeroBytes(ph) == Span(ph)
    ensures (ph.vaddr / PGSIZE + j) * PGSIZE + k == ph.vaddr + i
    ensures j < (ReadBytes(ph) + ZeroBytes(ph)) / PGSIZE && k < PGSIZE
    ensures Image(file, ph.offset - ph.offset % PGSIZE, ReadBytes(ph))(j)[k] ==
      if i < ph.filesz && ph.offset + i < |file| then file[ph.offset + i] else 0
  {
    SpanFacts(ph);
    ReadBytesCover(ph, |file|, i);
    Locate(ph.vaddr, i, Span(ph));
    j, k := (ph.vaddr + i) / PGSIZE - ph.vaddr / PGSIZE, (ph.vaddr + i) % PGSIZE;
    HeaderByte(file, ph.offset - ph.offset % PGSIZE, ReadBytes(ph), j, k, ph.vaddr % PGSIZE, i, ph);
  }
}
