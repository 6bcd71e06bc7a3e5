/**
 Bitmaps as the rest of the kernel sees them: pintos-kaist/lib/kernel/bitmap.c. The swap table,
 the page pools and the file system's free map all allocate by the same first-fit scan.
 */
module Bitmaps {
  import opened Wrappers
  import opened Arithmetic
  import opened Bits

  /** The `cnt` bits from `start` on exist and all equal `value`. */
  predicate Run(bits: seq<bool>, start: nat, cnt: nat, value: bool) {
    start + cnt <= |bits| && forall i :: start <= i < start + cnt ==> bits[i] == value
  }

  /** The first run at or after `start`. */
  function FirstFit(bits: seq<bool>, start: nat, cnt: nat, value: bool): (r: Option<nat>)
    ensures r.Some? ==> start <= r.value && Run(bits, r.value, cnt, value)
    ensures r.Some? ==> forall j :: start <= j < r.value ==> !Run(bits, j, cnt, value)
    ensures r.None? ==> forall j :: start <= j ==> !Run(bits, j, cnt, value)
    decreases |bits| - start
  {
    if start + cnt > |bits| then None
    else if Run(bits, start, cnt, value) then Some(start)
    else if start == |bits| then None
    else FirstFit(bits, start + 1, cnt, value)
  }

  function Filled(bits: seq<bool>, start: nat, cnt: nat, value: bool): (r: seq<bool>)
    requires start + cnt <= |bits|
    ensures |r| == |bits|
    ensures forall i :: 0 <= i < |bits| ==> r[i] == if start <= i < start + cnt then value else bits[i]
  {
    bits[..start] + seq(cnt, _ => value) + bits[start + cnt..]
  }

  // ---------------------------------------------------------------- packed words

  const ELEM_BITS: nat := 64

  function ElemCnt(bitCnt: nat): nat { (bitCnt + ELEM_BITS - 1) / ELEM_BITS }

  function Mask(i: nat): nat { Pow2(i % ELEM_BITS) }

  /** Bit `i` of the map, as `bitmap_test` finds it. */
  function Test(words: seq<int>, i: nat): bool
    requires i / ELEM_BITS < |words| && words[i / ELEM_BITS] >= 0
  {
    BitAnd(words[i / ELEM_BITS], Mask(i)) != 0
  }

  ghost predicate Words(words: seq<int>, bitCnt: nat) {
    |words| == ElemCnt(bitCnt) && forall k :: 0 <= k < |words| ==> words[k] >= 0
  }

  /** The array of bits that the words stand for. */
  ghost function Unpacked(words: seq<int>, bitCnt: nat): (bits: seq<bool>)
    requires Words(words, bitCnt)
    ensures |bits| == bitCnt
    ensures forall i :: 0 <= i < bitCnt ==> bits[i] == Test(words, i)
  {
    seq(bitCnt, i requires 0 <= i < bitCnt => Test(words, i))
  }

  /** A bit of the map is one bit of one word. */
  lemma TestIsBit(words: seq<int>, i: nat)
    requires i / ELEM_BITS < |words| && words[i / ELEM_BITS] >= 0
    ensures Test(words, i) == Bit(words[i / ELEM_BITS], i % ELEM_BITS)
  {
    AndMask(words[i / ELEM_BITS], i % ELEM_BITS);
  }

  /** Replacing the word of bit `i` by one that differs in that bit only changes that bit of the map only. */
  lemma StoreWord(words: seq<int>, bitCnt: nat, i: nat, w: nat, value: bool)
    requires Words(words, bitCnt) && i < bitCnt
    requires forall k :: 0 <= k < ELEM_BITS ==>
      Bit(w, k) == if k == i % ELEM_BITS then value else Bit(words[i / ELEM_BITS], k)
    ensures Unpacked(words[i / ELEM_BITS := w], bitCnt) == Unpacked(words, bitCnt)[i := value]
  {
    var after := words[i / ELEM_BITS := w];
    forall j | 0 <= j < bitCnt ensures Test(after, j) == if j == i then value else Test(words, j) {
      TestIsBit(after, j);
      TestIsBit(words, j);
    }
  }

  class Bitmap {
    var bitCnt: nat
    var words: seq<int>

    ghost predicate Valid() reads this { Words(words, bitCnt) }

    ghost function Bits(): seq<bool> reads this requires Valid() { Unpacked(words, bitCnt) }

    method Mark(i: nat)
      requires Valid() && i < bitCnt
      modifies this`words
      ensures Valid() && Bits() == old(Bits())[i := true]
    {
      var w := words[i / ELEM_BITS];
      forall k | 0 <= k < ELEM_BITS ensures Bit(BitOr(w, Mask(i)), k) == if k == i % ELEM_BITS then true else Bit(w, k) {
        OrBit(w, Mask(i), k);
        MaskBit(i % ELEM_BITS, k);
      }
      StoreWord(words, bitCnt, i, BitOr(w, Mask(i)), true);
      words := words[i / ELEM_BITS := BitOr(w, Mask(i))];
    }

    method Reset(i: nat)
      requires Valid() && i < bitCnt
      modifies this`words
      ensures Valid() && Bits() == old(Bits())[i := false]
    {
      var w := words[i / ELEM_BITS];
      forall k | 0 <= k < ELEM_BITS ensures Bit(BitClear(w, Mask(i)), k) == if k == i % ELEM_BITS then false else Bit(w, k) {
        ClearBit(w, Mask(i), k);
        MaskBit(i % ELEM_BITS, k);
      }
      StoreWord(words, bitCnt, i, BitClear(w, Mask(i)), false);
      words := words[i / ELEM_BITS := BitClear(w, Mask(i))];
    }

    method Flip(i: nat)
      requires Valid() && i < bitCnt
      modifies this`words
      ensures Valid() && Bits() == old(Bits())[i := !old(Bits())[i]]
    {
      var w := words[i / ELEM_BITS];
      TestIsBit(words, i);
      forall k | 0 <= k < ELEM_BITS
        ensures Bit(BitXor(w, Mask(i)), k) == if k == i % ELEM_BITS then !Bit(w, i % ELEM_BITS) else Bit(w, k)
      {
        XorBit(w, Mask(i), k);
        MaskBit(i % ELEM_BITS, k);
      }
      StoreWord(words, bitCnt, i, BitXor(w, Mask(i)), !Bit(w, i % ELEM_BITS));
      words := words[i / ELEM_BITS := BitXor(w, Mask(i))];
    }

    method Set(i: nat, value: bool)
      requires Valid() && i < bitCnt
      modifies this`words
      ensures Valid() && Bits() == old(Bits())[i := value]
    {
      if value { Mark(i); } else { Reset(i); }
    }

    method SetMultiple(start: nat, cnt: nat, value: bool)
      requires Valid() && start + cnt <= bitCnt
      modifies this`words
      ensures Valid() && Bits() == Filled(old(Bits()), start, cnt, value)
    {
      var i := 0;
      while i < cnt
        invariant 0 <= i <= cnt && Valid()
        invariant forall j :: 0 <= j < bitCnt ==>
                    Bits()[j] == if start <= j < start + i then value else old(Bits())[j]
      {
        Set(start + i, value);
        i := i + 1;
      }
    }

    method Contains(start: nat, cnt: nat, value: bool) returns (r: bool)
      requires Valid() && start + cnt <= bitCnt
      ensures r <==> exists i :: start <= i < start + cnt && Bits()[i] == value
    {
      var i := 0;
      while i < cnt
        invariant 0 <= i <= cnt
        invariant forall j :: start <= j < start + i ==> Bits()[j] != value
      {
        if Test(words, start + i) == value {
          assert Bits()[start + i] == value;
          return true;
        }
        i := i + 1;
      }
      return false;
    }

    method Scan(start: nat, cnt: nat, value: bool) returns (r: Option<nat>)
      requires Valid() && start <= bitCnt
      ensures r == FirstFit(Bits(), start, cnt, value)
    {
      if cnt <= bitCnt {
        var last := bitCnt - cnt;
        var i := start;
        while i <= last
          invariant start <= i
          invariant forall j :: start <= j < i ==> !Run(Bits(), j, cnt, value)
          decreases last - i
        {
          var other := Contains(i, cnt, !value);
          if !other {
            assert Run(Bits(), i, cnt, value);
            FirstFitUnique(Bits(), start, cnt, value, i);
            return Some(i);
          }
          i := i + 1;
        }
      }
      return None;
    }

    /** Finds the first run and turns it over; nothing else changes. */
    method ScanAndFlip(start: nat, cnt: nat, value: bool) returns (r: Option<nat>)
      requires Valid() && start <= bitCnt
      modifies this`words
      ensures Valid() && r == FirstFit(old(Bits()), start, cnt, value)
      ensures Bits() == if r.None? then old(Bits()) else Filled(old(Bits()), r.value, cnt, !value)
    {
      r := Scan(start, cnt, value);
      if r.Some? {
        SetMultiple(r.value, cnt, !value);
      }
    }
  }

  lemma FirstFitUnique(bits: seq<bool>, start: nat, cnt: nat, value: bool, i: nat)
    requires start <= i && Run(bits, i, cnt, value)
    requires forall j :: start <= j < i ==> !Run(bits, j, cnt, value)
    ensures FirstFit(bits, start, cnt, value) == Some(i)
  {
  }
}
