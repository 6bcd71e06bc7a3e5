/**
 The flat memory that paging is shown to give a process (pintos-kaist/vm/vm.c): a byte holds what was last stored there,
 and rights and pages are what the process asked for.
 */
module FlatMemory {
  import opened Wrappers
  import opened Paging

  /** Every page has its full size. */
  ghost predicate Whole(w: Space) {
    w.mem.Keys <= w.rights.Keys && forall va :: va in w.mem ==> |w.mem[va]| == 4096
  }

  /** The state of the machine is seen as such a memory. */
  lemma SeenIsWhole(s: State)
    requires Inv(s, None)
    ensures Whole(Seen(s))
  {
    forall va | va in Mem(s) ensures |Mem(s)[va]| == 4096 {
      assert PageOk(s, va);
      ContentSize(s, va);
    }
  }

  /** The bytes of a page, or those it is born with. */
  function Bytes0(w: Space, va: nat, birth: Bytes): Bytes { if va in w.mem then w.mem[va] else birth }

  /** A store is refused exactly outside the address space and on a read-only page.  One that is not changes its byte and
      no other, and no page's rights. */
  lemma StoreDoes(w: Space, va: nat, ofs: nat, v: int, birth: Bytes)
    requires Whole(w) && |birth| == 4096 && ofs < 4096
    ensures var (w', ok) := FlatStore(w, va, ofs, v, birth);
      && Whole(w') && w'.rights == w.rights
      && (ok <==> va in w.rights && w.rights[va])
      && (forall vb :: vb != va ==> (vb in w'.mem <==> vb in w.mem) && (vb in w.mem ==> w'.mem[vb] == w.mem[vb]))
      && (va !in w.rights ==> w' == w)
      && (va in w.rights ==> va in w'.mem && |w'.mem[va]| == 4096)
      && (va in w.rights ==> forall x :: 0 <= x < 4096 ==>
            w'.mem[va][x] == if ok && x == ofs then v else Bytes0(w, va, birth)[x])
  {
  }

  /** A load gives the byte, or nothing exactly outside the address space, and changes no byte. */
  lemma LoadDoes(w: Space, va: nat, ofs: nat, birth: Bytes)
    requires Whole(w) && |birth| == 4096 && ofs < 4096
    ensures var (w', v) := FlatLoad(w, va, ofs, birth);
      && Whole(w') && w'.rights == w.rights
      && v == (if va in w.rights then Some(Bytes0(w, va, birth)[ofs]) else None)
      && w'.mem == if va in w.rights then w.mem[va := Bytes0(w, va, birth)] else w.mem
  {
  }

  /** A page is added exactly when its address is new, with the contents of its initializer if it has one; a page is
      removed exactly when it is there; nothing else changes. */
  lemma PagesDo(w: Space, out: seq<Answer>, op: Op, birth: Bytes)
    requires Whole(w) && Proper(op) && (op.Alloc? || op.Destroy?)
    ensures var (w', out') := FlatStep(w, out, op, birth);
      && Whole(w') && out' == out + [Done(if op.Alloc? then op.va !in w.rights else op.va in w.rights)]
      && (op.Alloc? && op.va in w.rights ==> w' == w)
      && (op.Alloc? && op.va !in w.rights ==> w'.rights == w.rights[op.va := op.writable])
      && (op.Alloc? && op.va !in w.rights && op.init.Some? ==> w'.mem == w.mem[op.va := op.init.value])
      && (op.Alloc? && op.va !in w.rights && op.init.None? ==> w'.mem == w.mem)
      && (op.Destroy? ==> w'.rights == w.rights - {op.va} && w'.mem == w.mem - {op.va})
  {
    var w' := FlatStep(w, out, op, birth).0;
    if op.Destroy? && op.va !in w.rights {
      assert w.rights - {op.va} == w.rights && w.mem - {op.va} == w.mem;
    }
  }

  /** What loads and stores answer. */
  lemma AnswersAre(w: Space, out: seq<Answer>, op: Op, birth: Bytes)
    requires Whole(w) && |birth| == 4096 && Proper(op) && (op.Load? || op.Store?)
    ensures var (w', out') := FlatStep(w, out, op, birth);
      && w' == (if op.Load? then FlatLoad(w, op.va, op.ofs, birth).0 else FlatStore(w, op.va, op.ofs, op.v, birth).0)
      && out' == out + [
           if op.Store? then Done(op.va in w.rights && w.rights[op.va])
           else if op.va in w.rights then Loaded(Bytes0(w, op.va, birth)[op.ofs])
           else Done(false)]
  {
  }

  /** The operation cannot change the byte: it stores elsewhere, if at all, and does not take the page away. */
  predicate Spares(op: Op, va: nat, ofs: nat) {
    match op
    case Destroy(vb) => vb != va
    case Store(vb, x, _) => vb != va || x != ofs
    case _ => true
  }

  lemma StepKeepsByte(w: Space, out: seq<Answer>, op: Op, birth: Bytes, va: nat, ofs: nat)
    requires Whole(w) && |birth| == 4096 && Proper(op) && va in w.mem && ofs < 4096 && Spares(op, va, ofs)
    ensures var w' := FlatStep(w, out, op, birth).0;
      Whole(w') && va in w'.mem && w'.mem[va][ofs] == w.mem[va][ofs]
  {
    match op {
      case Alloc(_, _, _) => PagesDo(w, out, op, birth);
      case Destroy(_) => PagesDo(w, out, op, birth);
      case Load(vb, x) => LoadDoes(w, vb, x, birth);
      case Store(vb, x, v) => StoreDoes(w, vb, x, v, birth);
    }
  }

  /** However long the run, a byte that no operation of it touches stays. */
  lemma {:induction false} RunKeepsByte(w: Space, ops: seq<Op>, births: seq<Bytes>, va: nat, ofs: nat)
    requires |births| == |ops| && Whole(w) && va in w.mem && ofs < 4096
    requires forall k :: 0 <= k < |ops| ==> Proper(ops[k]) && Spares(ops[k], va, ofs) && |births[k]| == 4096
    ensures var w' := Flat(w, ops, births).0;
      Whole(w') && va in w'.mem && w'.mem[va][ofs] == w.mem[va][ofs]
    decreases |ops|
  {
    if ops != [] {
      var n := |ops| - 1;
      RunKeepsByte(w, ops[..n], births[..n], va, ofs);
      var (u, out) := Flat(w, ops[..n], births[..n]);
      StepKeepsByte(u, out, ops[n], births[n], va, ofs);
    }
  }

  /** The last store wins: a load after it gives what it stored, whatever came in between. */
  lemma LoadGivesLastStore(w: Space, va: nat, ofs: nat, v: int, birth: Bytes, ops: seq<Op>, births: seq<Bytes>, birth': Bytes)
    requires Whole(w) && va in w.rights && w.rights[va] && ofs < 4096 && |birth| == 4096 && |birth'| == 4096
    requires |births| == |ops|
    requires forall k :: 0 <= k < |ops| ==> Proper(ops[k]) && Spares(ops[k], va, ofs) && |births[k]| == 4096
    ensures var u := Flat(FlatStore(w, va, ofs, v, birth).0, ops, births).0;
      FlatLoad(u, va, ofs, birth').1 == Some(v)
  {
    StoreDoes(w, va, ofs, v, birth);
    var w1 := FlatStore(w, va, ofs, v, birth).0;
    RunKeepsByte(w1, ops, births, va, ofs);
    LoadDoes(Flat(w1, ops, births).0, va, ofs, birth');
  }
}
