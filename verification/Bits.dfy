/** Bitwise operations on machine words, as natural numbers. */
module Bits {
  import opened Arithmetic

  /** Bit `k` of `w`. */
  function Bit(w: nat, k: nat): bool {
    if k == 0 then w % 2 == 1 else Bit(w / 2, k - 1)
  }

  function BitAnd(a: nat, b: nat): nat {
    if a == 0 || b == 0 then 0 else 2 * BitAnd(a / 2, b / 2) + if a % 2 == 1 && b % 2 == 1 then 1 else 0
  }

  function BitOr(a: nat, b: nat): nat {
    if a == 0 then b else 2 * BitOr(a / 2, b / 2) + if a % 2 == 1 || b % 2 == 1 then 1 else 0
  }

  /** `a & ~b`. */
  function BitClear(a: nat, b: nat): nat {
    if a == 0 then 0 else 2 * BitClear(a / 2, b / 2) + if a % 2 == 1 && b % 2 == 0 then 1 else 0
  }

  function BitXor(a: nat, b: nat): nat {
    if a == 0 then b else 2 * BitXor(a / 2, b / 2) + if (a % 2 == 1) != (b % 2 == 1) then 1 else 0
  }

  lemma {:induction false} BitOfZero(k: nat)
    ensures !Bit(0, k)
  {
    if k > 0 { BitOfZero(k - 1); }
  }

  lemma {:induction false} OrBit(a: nat, b: nat, k: nat)
    ensures Bit(BitOr(a, b), k) == (Bit(a, k) || Bit(b, k))
    decreases k
  {
    if a == 0 {
      BitOfZero(k);
    } else if k > 0 {
      OrBit(a / 2, b / 2, k - 1);
    }
  }

  lemma {:induction false} ClearBit(a: nat, b: nat, k: nat)
    ensures Bit(BitClear(a, b), k) == (Bit(a, k) && !Bit(b, k))
    decreases k
  {
    if a == 0 {
      BitOfZero(k);
    } else if k > 0 {
      ClearBit(a / 2, b / 2, k - 1);
    }
  }

  lemma {:induction false} XorBit(a: nat, b: nat, k: nat)
    ensures Bit(BitXor(a, b), k) == (Bit(a, k) != Bit(b, k))
    decreases k
  {
    if a == 0 {
      BitOfZero(k);
    } else if k > 0 {
      XorBit(a / 2, b / 2, k - 1);
    }
  }

  /** A one-bit mask has that bit and no other. */
  lemma {:induction false} MaskBit(k: nat, j: nat)
    ensures Bit(Pow2(k), j) == (j == k)
    decreases k
  {
    if k == 0 {
      if j > 0 { BitOfZero(j - 1); }
    } else if j > 0 {
      MaskBit(k - 1, j - 1);
    }
  }

  /** Testing a bit with a mask. */
  lemma {:induction false} AndMask(a: nat, k: nat)
    ensures BitAnd(a, Pow2(k)) != 0 <==> Bit(a, k)
    decreases k
  {
    if a == 0 {
      BitOfZero(k);
    } else if k > 0 {
      AndMask(a / 2, k - 1);
    }
  }
}
