/**
 64-bit division out of 32-bit division: pintos-kaist/lib/arithmetic.c.

 Machine words are natural numbers below a power of two; every shift, product and difference
 that the C code computes in a word is reduced explicitly.
 */
module Arithmetic {

  const B32: nat := 0x1_0000_0000
  const B64: nat := 0x1_0000_0000_0000_0000
  const INT64_MIN: int := -0x8000_0000_0000_0000

  function Pow2(k: nat): (r: nat)
    ensures r > 0
  {
    if k == 0 then 1 else 2 * Pow2(k - 1)
  }

  lemma {:induction false} Pow2Sum(a: nat, b: nat)
    ensures Pow2(a + b) == Pow2(a) * Pow2(b)
  {
    if a > 0 {
      Pow2Sum(a - 1, b);
    }
  }

  lemma Pow2Values()
    ensures Pow2(1) == 2 && Pow2(2) == 4 && Pow2(4) == 0x10 && Pow2(8) == 0x100 && Pow2(16) == 0x1_0000
    ensures Pow2(31) == 0x8000_0000 && Pow2(32) == B32
  {
    assert Pow2(2) == 4 && Pow2(4) == 0x10 && Pow2(7) == 0x80;
    Pow2Sum(4, 4);
    Pow2Sum(8, 8);
    Pow2Sum(16, 8);
    Pow2Sum(24, 7);
    Pow2Sum(16, 16);
  }

  lemma ShiftMore(x: nat, n: nat, k: nat)
    ensures x * Pow2(n + k) == x * Pow2(n) * Pow2(k)
  {
    Pow2Sum(n, k);
    assert x * (Pow2(n) * Pow2(k)) == x * Pow2(n) * Pow2(k);
  }

  function Wrap64(x: int): (r: nat)
    ensures r < B64
  {
    x % B64
  }

  /** C division: toward zero. */
  function TruncDiv(n: int, d: int): int
    requires d != 0
  {
    var q := Magnitude(n) / Magnitude(d);
    if (n < 0) == (d < 0) then q else -q
  }

  function TruncMod(n: int, d: int): int
    requires d != 0
  {
    n - d * TruncDiv(n, d)
  }

  /** Two's complement reading of the low `2 * half` values. */
  function AsSigned(x: int, half: nat): (r: int)
    requires half > 0
    ensures -(half as int) <= r < half
  {
    var y := x % (2 * half);
    if y < half then y else y - 2 * half
  }

  /** The DIVL instruction: traps, here a precondition, unless the quotient fits 32 bits. */
  method Divl(n: nat, d: nat) returns (q: nat)
    requires n < B64 && 0 < d < B32
    requires n / d < B32
    ensures q == n / d
  {
    q := n / d;
  }

  /** One step of nlz: shifts the word left by `k` bits when its top `k` bits are zero. */
  method NlzStep(x: nat, n: nat, y: nat, k: nat, step: nat) returns (n': nat, y': nat)
    requires y == x * Pow2(n) && 0 < y < B32
    requires step == Pow2(k) && 1 <= step <= 0x1_0000 && B32 % step == 0
    requires y * step >= B32 / step
    ensures y' == x * Pow2(n') && B32 / step <= y' < B32
    ensures n' == n || n' == n + k
  {
    n', y' := n, y;
    if y <= B32 / step - 1 {
      ShiftMore(x, n, k);
      FitsShift(y, step);
      n' := n + k;
      y' := y * step % B32;
    }
  }

  lemma FitsShift(y: nat, step: nat)
    requires step >= 1 && B32 % step == 0 && y <= B32 / step - 1
    ensures y * step < B32
  {
    var q := B32 / step;
    assert B32 == q * step;
    MulMono(y, q - 1, step);
    assert (q - 1) * step == q * step - step;
  }

  /** Leading zeros of a nonzero 32-bit word. */
  method Nlz(x: nat) returns (n: nat)
    requires 0 < x < B32
    ensures n <= 31
    ensures 0x8000_0000 <= x * Pow2(n) < B32
  {
    Pow2Values();
    var y;
    n, y := NlzStep(x, 0, x, 16, 0x1_0000);
    n, y := NlzStep(x, n, y, 8, 0x100);
    n, y := NlzStep(x, n, y, 4, 0x10);
    n, y := NlzStep(x, n, y, 2, 4);
    n, y := NlzStep(x, n, y, 1, 2);
  }

  // ---------------------------------------------------------------------------------
  // Divisors below 2^32: schoolbook division in base 2^32

  /** `q` is the floor of `n / d`, said without dividing. */
  ghost predicate IsQuot(n: int, d: int, q: int) {
    d > 0 && q * d <= n < q * d + d
  }

  lemma QuotUnique(n: int, d: int, q: int, q': int)
    requires IsQuot(n, d, q) && IsQuot(n, d, q')
    ensures q == q'
  {
    if q' < q {
      MulMono(q' + 1, q, d);
    } else if q < q' {
      MulMono(q + 1, q', d);
    }
  }

  lemma DivIsQuot(n: int, d: int)
    requires d > 0
    ensures IsQuot(n, d, n / d) && n == n / d * d + n % d
  {
  }

  lemma DivUnique(n: int, d: int, q: int)
    requires IsQuot(n, d, q)
    ensures n / d == q
  {
    DivIsQuot(n, d);
    QuotUnique(n, d, q, n / d);
  }

  lemma MulMono(a: int, b: int, c: int)
    requires a <= b && 0 <= c
    ensures a * c <= b * c
  {
  }

  /** Long division with one 32-bit digit at a time: the second division's quotient is again a digit. */
  lemma ShortDivision(n: nat, d: nat, n1: nat, n0: nat, q1: nat, r1: nat, q: int)
    requires n == n1 * B32 + n0 && n0 < B32 && n1 == q1 * d + r1 && r1 < d < B32
    requires IsQuot(B32 * r1 + n0, d, q)
    ensures B32 * r1 + n0 < B64 && q < B32 && IsQuot(n, d, q + B32 * q1)
  {
    var m := B32 * r1 + n0;
    MulMono(r1 + 1, d, B32);
    assert m < B32 * d;
    if q >= B32 {
      MulMono(B32, q, d);
    }
    var t := q1 * d;
    assert (q + B32 * q1) * d == q * d + B32 * t;
    assert n == B32 * t + m;
  }

  // ---------------------------------------------------------------------------------
  // Divisors of 2^32 and more: divide by the top 32 bits of the divisor, then correct

  /** Shifting the divisor left by its leading zeros does not overflow. */
  lemma NormaliseFits(d: nat, a: nat, b: nat)
    requires a * b == B32 && b > 0 && (d / B32) * b < B32
    ensures d * b < B64
  {
    var d1, d0 := d / B32, d % B32;
    RoomForOne(d1, b, a);
    MulMono((d1 + 1) * b, B32, B32);
    assert d < (d1 + 1) * B32;
    assert d * b < ((d1 + 1) * B32) * b by {
      MulMono(d + 1, (d1 + 1) * B32, b);
      assert (d + 1) * b == d * b + b;
    }
    assert ((d1 + 1) * B32) * b == ((d1 + 1) * b) * B32;
  }

  lemma TopHalf(d: nat, b: nat)
    requires b > 0 && 0x8000_0000 <= (d / B32) * b && d * b < B64
    ensures 0x8000_0000 <= d * b / B32 < B32
  {
    var d1 := d / B32;
    MulMono(d1 * B32, d, b);
    assert (d1 * B32) * b == (d1 * b) * B32;
    MulMono(0x8000_0000, d1 * b, B32);
  }

  lemma DivideOutFactor(d: nat, a: nat, b: nat) returns (e: nat)
    requires a * b == B32 && b > 0
    ensures d == (d * b / B32) * a + e && e < a
  {
    var v, r := d * b / B32, d * b % B32;
    assert d * b == B32 * v + r;
    var x := d - v * a;
    assert x * b == r by {
      assert (v * a) * b == v * (a * b);
      assert (d - v * a) * b == d * b - (v * a) * b;
    }
    assert 0 <= x by {
      if x < 0 { MulMono(x, -1, b); }
    }
    assert x < a by {
      if x >= a { MulMono(a, x, b); }
    }
    e := x;
  }

  /** A multiple of `b` below the multiple `a * b` is at least `b` below it. */
  lemma RoomForOne(x: nat, b: nat, a: nat)
    requires b > 0 && x * b < a * b
    ensures (x + 1) * b <= a * b
  {
    if x >= a {
      MulMono(a, x, b);
    }
    MulMono(x + 1, a, b);
  }

  /** floor(floor(n / x) / y) == floor(n / (x * y)). */
  lemma NestedDiv(n: nat, x: nat, y: nat)
    requires x > 0 && y > 0
    ensures x * y > 0 && n / x / y == n / (x * y)
  {
    DivIsQuot(n, x);
    DivIsQuot(n / x, y);
    var q1, r1 := n / x, n % x;
    var q2, r2 := q1 / y, q1 % y;
    assert (y * q2) * x == q2 * (x * y);
    assert q1 * x == q2 * (x * y) + r2 * x;
    MulMono(r2 + 1, y, x);
    assert (r2 + 1) * x == r2 * x + x;
    DivUnique(n, x * y, q2);
  }

  /** Dividing by the truncated divisor `t` overshoots the quotient by at most one. */
  lemma EstimateWithinOne(n: nat, d: nat, a: nat, t: nat, e: nat, q: nat, q': nat)
    requires n < B64 && B32 <= d && d == t + e && e < a && 2 <= a <= B32
    requires 0x8000_0000 * a <= t && IsQuot(n, d, q) && IsQuot(n, t, q')
    ensures q <= q' <= q + 1
  {
    QuotientFits(n, d, q);
    ErrorFits(n, d, q, a, t, e);
    WithinOne(n, d, q, t, e);
    if q' < q {
      MulMono(q' + 1, q, t);
    } else if q + 1 < q' {
      MulMono(q + 2, q', t);
    }
  }

  lemma QuotientFits(n: nat, d: nat, q: nat)
    requires n < B64 && B32 <= d && q * d <= n
    ensures q < B32
  {
    if q >= B32 {
      MulMono(B32, d, q);
      MulMono(B32, q, B32);
    }
  }

  lemma WithinOne(n: nat, d: nat, q: nat, t: nat, e: nat)
    requires d == t + e && IsQuot(n, d, q) && (q + 1) * e <= t
    ensures q * t <= n < (q + 2) * t
  {
    MulMono(t, d, q);
    assert q * d + d == (q + 1) * t + (q + 1) * e;
    assert (q + 2) * t == (q + 1) * t + t;
  }

  lemma ErrorFits(n: nat, d: nat, q: nat, a: nat, t: nat, e: nat)
    requires n < B64 && B32 <= d && q * d <= n && q < B32 && 2 <= a <= B32
    requires 0x8000_0000 * a <= t <= d && e < a
    ensures (q + 1) * e <= t
  {
    if e <= 1 {
      // the normalisation shifted by 31 bits: t is d or d - 1
      assert (q + 1) * e <= B32 <= t by {
        MulMono(e, 1, q + 1);
      }
    } else {
      // q * t < 2^64 bounds q by 2^33 / a, and e < a
      assert q * t < B64 by { MulMono(t, d, q); }
      assert q * (0x8000_0000 * a) < B64 by { MulMono(0x8000_0000 * a, t, q); }
      assert q * a < 0x2_0000_0000;
      MulMono(e, a - 1, q + 1);
      assert (q + 1) * (a - 1) == q * a - q + a - 1;
      assert (q + 1) * e <= 0x2_0000_0000 + B32;
      assert a >= 3;
    }
  }

  /** The half-size dividend over a normalised divisor fits 32 bits. */
  lemma EstimateFits(n: nat, v: nat)
    requires n < B64 && 0x8000_0000 <= v
    ensures n / 2 / v < B32
  {
    var h := n / 2;
    DivIsQuot(h, v);
    if h / v >= B32 {
      MulMono(B32, h / v, v);
    }
  }

  /** What the long path computes before its correction: the divisor `d`, shifted left by
      `b == 2^s`, has the top half `v`; `half` is 2^(31-s). */
  lemma LongEstimate(n: nat, d: nat, b: nat, half: nat, v: nat, t: nat, q: nat)
    requires n < B64 && B32 <= d && b > 0 && half > 0 && 2 * half * b == B32
    requires v == d * b / B32 && 0x8000_0000 <= v
    requires IsQuot(n, d, t) && IsQuot(n, v * (2 * half), q)
    ensures t <= q <= t + 1
  {
    var a := 2 * half;
    MulMono(1, b, a);
    var e := DivideOutFactor(d, a, b);
    MulMono(0x8000_0000, v, a);
    EstimateWithinOne(n, d, a, v * a, e, t, q);
  }

  lemma Powers(s: nat)
    requires s <= 31
    ensures 2 * Pow2(31 - s) * Pow2(s) == B32
  {
    Pow2Values();
    Pow2Sum(32 - s, s);
    assert Pow2(32 - s) == 2 * Pow2(31 - s);
  }

  lemma ThreeDivisions(n: nat, v: nat, half: nat, a: nat)
    requires v > 0 && half > 0 && a == 2 * half
    ensures IsQuot(n, v * a, n / 2 / v / half)
  {
    NestedDiv(n, 2, v);
    NestedDiv(n, 2 * v, half);
    assert 2 * v * half == v * a;
    DivIsQuot(n, v * a);
  }

  /** The correction step settles which of the two candidates is the quotient. */
  lemma Correction(n: nat, d: nat, t: nat, q: nat)
    requires n < B64 && B32 <= d <= n && IsQuot(n, d, t) && t <= q <= t + 1
    ensures t > 0 && q > 0
    ensures Wrap64(n - Wrap64(Wrap64(q - 1) * d)) < d <==> q == t + 1
  {
    QuotientFits(n, d, t);
    assert t >= 1 by {
      if t < 1 { MulMono(t, 0, d); }
    }
    var p := (q - 1) * d;
    MulMono(0, q - 1, d);
    if q == t {
      assert p == t * d - d;
    } else {
      assert p == t * d;
    }
    WrapSmall(q - 1);
    WrapSmall(p);
    WrapSmall(n - p);
  }

  lemma WrapSmall(x: nat)
    requires x < B64
    ensures Wrap64(x) == x
  {
  }

  lemma Normalised(d: nat, s: nat)
    requires s <= 31 && 0x8000_0000 <= (d / B32) * Pow2(s) < B32
    ensures var v := Wrap64(d * Pow2(s)) / B32; v == d * Pow2(s) / B32 && 0x8000_0000 <= v < B32
    ensures 2 * Pow2(31 - s) * Pow2(s) == B32
  {
    Powers(s);
    NormaliseFits(d, 2 * Pow2(31 - s), Pow2(s));
    WrapSmall(d * Pow2(s));
    TopHalf(d, Pow2(s));
  }

  lemma LongPath(n: nat, d: nat, b: nat, half: nat, v: nat, q: nat) returns (t: nat)
    requires n < B64 && B32 <= d <= n && b > 0 && half > 0 && 2 * half * b == B32
    requires v == d * b / B32 && 0x8000_0000 <= v
    requires q == n / 2 / v / half
    ensures IsQuot(n, d, t) && q > 0 && t <= q <= t + 1
    ensures Wrap64(n - Wrap64(Wrap64(q - 1) * d)) < d <==> q == t + 1
  {
    t := n / d;
    DivIsQuot(n, d);
    ThreeDivisions(n, v, half, 2 * half);
    LongEstimate(n, d, b, half, v, t, q);
    Correction(n, d, t, q);
  }

  // ---------------------------------------------------------------------------------
  // The routines

  /** The path for divisors of 32 bits. */
  method UDivShort(n: nat, d: nat) returns (r: nat)
    requires n < B64 && 0 < d < B32
    ensures IsQuot(n, d, r)
  {
    var n1, n0 := n / B32, n % B32;
    DivIsQuot(n1, d);
    var q1, r1 := n1 / d, n1 % d;
    var m := B32 * r1 + n0;
    DivIsQuot(m, d);
    ShortDivision(n, d, n1, n0, q1, r1, m / d);
    var q := Divl(m, d);
    r := q + B32 * q1;
  }

  /** The path for longer divisors. */
  method UDivLong(n: nat, d: nat) returns (r: nat)
    requires n < B64 && B32 <= d <= n
    ensures IsQuot(n, d, r)
  {
    var s := Nlz(d / B32);
    var v := Wrap64(d * Pow2(s)) / B32;
    Normalised(d, s);
    EstimateFits(n, v);
    var q := Divl(n / 2, v);
    q := q / Pow2(31 - s);
    ghost var t := LongPath(n, d, Pow2(s), Pow2(31 - s), v, q);
    if Wrap64(n - Wrap64(Wrap64(q - 1) * d)) < d {
      r := q - 1;
    } else {
      r := q;
    }
  }

  /** Unsigned 64-bit quotient; neither path can trap. */
  method UDiv64(n: nat, d: nat) returns (r: nat)
    requires n < B64 && 0 < d < B64
    ensures r == n / d
  {
    if d / B32 == 0 {
      r := UDivShort(n, d);
    } else if n < d {
      r := 0;
    } else {
      r := UDivLong(n, d);
    }
    DivUnique(n, d, r);
  }

  /** The unsigned remainder comes back in 32 bits: it is right exactly when it fits. */
  method UMod64(n: nat, d: nat) returns (r: nat)
    requires n < B64 && 0 < d < B64
    ensures r == n % d % B32
    ensures r == n % d <==> n % d < B32
    ensures d <= B32 ==> r == n % d
  {
    var q := UDiv64(n, d);
    DivIsQuot(n, d);
    var p := d * q;
    assert p == q * d;
    r := Wrap64(n - Wrap64(p)) % B32;
    RemainderInWord(n, p, n % d);
  }

  lemma RemainderInWord(n: nat, p: int, m: nat)
    requires n == p + m && n < B64 && 0 <= p
    ensures Wrap64(n - Wrap64(p)) == m
  {
  }

  lemma SignedCases(n: int, d: int, q: nat)
    requires INT64_MIN <= n <= -INT64_MIN - 1 && INT64_MIN <= d <= -INT64_MIN - 1 && d != 0
    requires q == Magnitude(n) / Magnitude(d)
    ensures q <= -INT64_MIN
    ensures q == -INT64_MIN ==> n == INT64_MIN && (d == 1 || d == -1)
  {
    var x, y := Magnitude(n), Magnitude(d);
    DivIsQuot(x, y);
    MulMono(1, y, q);
    if y >= 2 {
      MulMono(2, y, q);
    }
  }

  function Magnitude(x: int): (r: nat) {
    if x < 0 then -x else x
  }

  /** Signed quotient, truncated, except for the one quotient that has no 64-bit representation. */
  method SDiv64(n: int, d: int) returns (r: int)
    requires INT64_MIN <= n <= -INT64_MIN - 1 && INT64_MIN <= d <= -INT64_MIN - 1 && d != 0
    ensures INT64_MIN <= r <= -INT64_MIN - 1
    ensures r == TruncDiv(n, d) <==> !(n == INT64_MIN && d == -1)
    ensures n == INT64_MIN && d == -1 ==> r == INT64_MIN
  {
    var nAbs := if n >= 0 then n else Wrap64(-n);
    var dAbs := if d >= 0 then d else Wrap64(-d);
    var q := UDiv64(nAbs, dAbs);
    SignedCases(n, d, q);
    r := if (n < 0) == (d < 0) then AsSigned64(q) else AsSigned64(-AsSigned64(q));
    SignOfQuotient(n, d, q, r);
  }

  lemma SignOfQuotient(n: int, d: int, q: nat, r: int)
    requires d != 0 && q == Magnitude(n) / Magnitude(d) && q <= -INT64_MIN
    requires q == -INT64_MIN ==> n == INT64_MIN && (d == 1 || d == -1)
    requires r == if (n < 0) == (d < 0) then AsSigned64(q) else AsSigned64(-AsSigned64(q))
    ensures INT64_MIN <= r <= -INT64_MIN - 1
    ensures r == TruncDiv(n, d) <==> !(n == INT64_MIN && d == -1)
    ensures n == INT64_MIN && d == -1 ==> r == INT64_MIN
  {
    if n == INT64_MIN && d == -1 {
      assert Magnitude(d) == 1;
      assert q == Magnitude(n);
    }
  }

  function AsSigned64(x: int): (r: int) {
    AsSigned(x, 0x8000_0000_0000_0000)
  }

  /** The truncated quotient's product with the divisor lies between 0 and the dividend. */
  lemma TruncDivBetween(n: int, d: int)
    requires d != 0
    ensures n >= 0 ==> 0 <= d * TruncDiv(n, d) <= n
    ensures n < 0 ==> n <= d * TruncDiv(n, d) <= 0
  {
    DivIsQuot(Magnitude(n), Magnitude(d));
    ProductBetween(n, d, Magnitude(n) / Magnitude(d), TruncDiv(n, d));
  }

  lemma ProductBetween(n: int, d: int, q: int, t: int)
    requires IsQuot(Magnitude(n), Magnitude(d), q) && q >= 0
    requires t == if (n < 0) == (d < 0) then q else -q
    ensures n >= 0 ==> 0 <= d * t <= n
    ensures n < 0 ==> n <= d * t <= 0
  {
    MulMono(0, q, Magnitude(d));
    SignsMultiply(n, d, q, t);
  }

  lemma SignsMultiply(n: int, d: int, q: int, t: int)
    requires t == if (n < 0) == (d < 0) then q else -q
    ensures d * t == if n < 0 then -(q * Magnitude(d)) else q * Magnitude(d)
  {
    assert d * -q == -(d * q) && -d * q == -(d * q);
  }

  /** The signed remainder comes back in 32 bits: it is right exactly when it fits. */
  method SMod64(n: int, d: int) returns (r: int)
    requires INT64_MIN <= n <= -INT64_MIN - 1 && INT64_MIN <= d <= -INT64_MIN - 1 && d != 0
    ensures r == TruncMod(n, d) <==> -0x8000_0000 <= TruncMod(n, d) < 0x8000_0000
  {
    var q := SDiv64(n, d);
    TruncDivBetween(n, d);
    var m := AsSigned64(n - AsSigned64(d * q));
    RemainderFits(n, d, q);
    r := AsSigned(m, 0x8000_0000);
  }

  lemma RemainderFits(n: int, d: int, q: int)
    requires INT64_MIN <= n <= -INT64_MIN - 1 && d != 0
    requires if n == INT64_MIN && d == -1 then q == INT64_MIN else q == TruncDiv(n, d)
    ensures AsSigned64(n - AsSigned64(d * q)) == TruncMod(n, d)
  {
    if n == INT64_MIN && d == -1 {
      assert Magnitude(d) == 1;
      assert d * q == -INT64_MIN;
      assert TruncMod(n, d) == 0;
      assert AsSigned64(-INT64_MIN) == INT64_MIN;
    } else {
      TruncDivBetween(n, d);
      SmallRemainder(n, d * q);
      assert TruncMod(n, d) == n - d * q;
    }
  }

  lemma SmallRemainder(n: int, p: int)
    requires INT64_MIN <= n <= -INT64_MIN - 1
    requires if n >= 0 then 0 <= p <= n else n <= p <= 0
    ensures AsSigned64(n - AsSigned64(p)) == n - p
  {
  }
}
