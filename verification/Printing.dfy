/**
 Printing and parsing integers: `format_integer` and `vsnprintf` of pintos-kaist/lib/stdio.c and `atoi`
 of pintos-kaist/lib/stdlib.c.  A string is what precedes its null terminator.
 */
module Printing {
  import opened Wrappers
  import opened Arithmetic

  const INT_MIN: int := -0x8000_0000
  const INT_MAX: int := 0x7fff_ffff

  // ---------------------------------------------------------------- conversions

  datatype Conversion = Conversion(minus: bool, plus: bool, space: bool, pound: bool, zero: bool, group: bool,
                                   width: nat, precision: int)

  /** `x` is the letter of a hexadecimal prefix. */
  datatype Base = Base(base: nat, digits: string, x: Option<char>, group: nat)

  function Decimal(): Base { Base(10, "0123456789", None, 3) }
  function Octal(): Base { Base(8, "01234567", None, 3) }
  function Hex(): Base { Base(16, "0123456789abcdef", Some('x'), 4) }
  function HexUpper(): Base { Base(16, "0123456789ABCDEF", Some('X'), 4) }

  /** What the digit loop needs of a base. */
  predicate Usable(b: Base) { 8 <= b.base == |b.digits| && b.group > 0 }

  lemma BasesUsable()
    ensures Usable(Decimal()) && Usable(Octal()) && Usable(Hex()) && Usable(HexUpper())
  {
  }

  function Repeat(c: char, n: int): (r: string)
    ensures |r| == if n < 0 then 0 else n
    ensures forall i :: 0 <= i < |r| ==> r[i] == c
  {
    if n <= 0 then [] else [c] + Repeat(c, n - 1)
  }

  function Reverse(s: string): (r: string)
    ensures |r| == |s|
  {
    if s == [] then [] else Reverse(s[1..]) + [s[0]]
  }

  lemma DivShrinks(v: nat, d: nat)
    requires d > 1
    ensures 0 <= v / d <= v && (v > 0 ==> v / d < v)
  {
    var q := v / d;
    DivIsQuot(v, d);
    if q < 0 { MulMono(q + 1, 0, d); }
    if q > 0 { MulMono(2, d, q); }
  }

  function Quot(v: nat, b: Base): (q: nat)
    requires Usable(b)
    ensures v > 0 ==> q < v
  {
    DivShrinks(v, b.base);
    v / b.base
  }

  function Digit(v: nat, b: Base): char
    requires Usable(b)
  {
    b.digits[v % b.base]
  }

  /** The buffer as the digit loop leaves it: least significant first, with commas between groups. */
  function Digits(v: nat, b: Base, group: bool, cnt: nat): (r: string)
    requires Usable(b)
    decreases v
  {
    if v == 0 then []
    else
      Comma(b, group, cnt) + [Digit(v, b)] + Digits(Quot(v, b), b, group, cnt + 1)
  }

  function Comma(b: Base, group: bool, cnt: nat): string {
    if group && cnt > 0 && b.group > 0 && cnt % b.group == 0 then "," else ""
  }

  /** The buffer with the zeros that precision and the octal prefix ask for. */
  function Padded(buf: string, b: Base, c: Conversion): (r: string) {
    var precision := if c.precision < 0 then 1 else c.precision;
    var z := buf + Repeat('0', Min(precision, 63) - |buf|);
    if c.pound && b.base == 8 && (z == [] || z[|z| - 1] != '0') then z + ['0'] else z
  }

  function Min(a: int, b: int): int { if a < b then a else b }

  function Sign(signed: bool, negative: bool, c: Conversion): string {
    if !signed then ""
    else if c.plus then (if negative then "-" else "+")
    else if c.space then (if negative then "-" else " ")
    else if negative then "-" else ""
  }

  function Prefix(v: nat, b: Base, c: Conversion): string {
    if c.pound && v > 0 && b.x.Some? then ['0', b.x.value] else ""
  }

  /** What `format_integer` outputs. */
  function Format(v: nat, signed: bool, negative: bool, b: Base, c: Conversion): (r: string)
    requires Usable(b)
  {
    Field(Padded(Digits(v, b, c.group, 0), b, c), Sign(signed, negative, c), Prefix(v, b, c), c)
  }

  /** The field: padding before the sign, between prefix and digits, or after them. */
  function Field(buf: string, sign: string, prefix: string, c: Conversion): string {
    var pad := c.width - |buf| - |prefix| - |sign|;
    Repeat(' ', if c.minus || c.zero then 0 else pad) + sign + prefix +
    Repeat('0', if c.zero then pad else 0) + Reverse(buf) + Repeat(' ', if c.minus then pad else 0)
  }

  // ---------------------------------------------------------------- the buffer

  function Pow(b: nat, k: nat): nat { if k == 0 then 1 else b * Pow(b, k - 1) }

  lemma QuotLess(v: nat, d: nat, m: nat)
    requires d > 0 && v < d * m
    ensures v / d < m
  {
    DivIsQuot(v, d);
    if v / d >= m { MulMono(m, v / d, d); }
  }

  /** `k` digits and their commas need at most 2k places. */
  lemma {:induction false} DigitsFit(v: nat, b: Base, group: bool, cnt: nat, k: nat)
    requires Usable(b) && v < Pow(b.base, k)
    ensures |Digits(v, b, group, cnt)| <= 2 * k
    decreases k
  {
    if v > 0 {
      QuotLess(v, b.base, Pow(b.base, k - 1));
      DigitsFit(Quot(v, b), b, group, cnt + 1, k - 1);
    }
  }

  lemma {:induction false} PowMono(a: nat, b: nat, k: nat)
    requires a <= b
    ensures Pow(a, k) <= Pow(b, k)
    decreases k
  {
    if k > 0 {
      PowMono(a, b, k - 1);
      MulMono(Pow(a, k - 1), Pow(b, k - 1), a);
      MulMono(a, b, Pow(b, k - 1));
    }
  }

  lemma EightTo22()
    ensures Pow(8, 22) == 0x4_0000_0000_0000_0000
  {
    assert Pow(8, 11) == 0x2_0000_0000;
    assert Pow(8, 22) == 0x4_0000_0000_0000_0000;
  }

  lemma BufferBound(v: nat, b: Base, group: bool)
    requires Usable(b) && v < B64
    ensures |Digits(v, b, group, 0)| <= 44
  {
    EightTo22();
    PowMono(8, b.base, 22);
    DigitsFit(v, b, group, 0, 22);
  }

  /** The digit loop; the array bounds show that it stays inside the buffer. */
  method GatherDigits(buf: array<char>, value: nat, b: Base, group: bool) returns (cp: nat)
    requires buf.Length == 64 && Usable(b) && value < B64
    modifies buf
    ensures cp <= 44 && buf[..cp] == Digits(value, b, group, 0)
  {
    ghost var all := Digits(value, b, group, 0);
    BufferBound(value, b, group);
    var v, cnt := value, 0;
    cp := 0;
    while v > 0
      invariant 0 <= cnt && 0 <= v && cp <= 44 && all == buf[..cp] + Digits(v, b, group, cnt)
      decreases v
    {
      ghost var before, rest := buf[..cp], Digits(Quot(v, b), b, group, cnt + 1);
      var comma, digit := Comma(b, group, cnt), Digit(v, b);
      MoveAcross(before, comma, digit, rest);
      assert all == before + comma + [digit] + rest;
      cp := PutDigit(buf, cp, comma, digit);
      v := Quot(v, b);
      cnt := cnt + 1;
    }
  }

  lemma MoveAcross(a: string, c: string, d: char, rest: string)
    ensures a + (c + [d] + rest) == a + c + [d] + rest
  {
  }

  method PutDigit(buf: array<char>, at: nat, comma: string, digit: char) returns (cp: nat)
    requires at + |comma| < buf.Length && (comma == "" || comma == ",")
    modifies buf
    ensures cp == at + |comma| + 1 && buf[..cp] == old(buf[..at]) + comma + [digit]
  {
    cp := at;
    if comma != "" {
      buf[cp] := ',';
      cp := cp + 1;
    }
    buf[cp] := digit;
    cp := cp + 1;
  }

  method Emit(buf: array<char>, n: nat) returns (out: string)
    requires n <= buf.Length
    ensures out == Reverse(buf[..n])
  {
    var cp := n;
    out := [];
    while cp > 0
      invariant 0 <= cp <= n && Reverse(buf[..n]) == out + Reverse(buf[..cp])
    {
      cp := cp - 1;
      ReverseLast(buf[..cp + 1]);
      assert buf[..cp + 1][..cp] == buf[..cp];
      out := out + [buf[cp]];
    }
  }

  /** The buffer of 64 characters is never overrun, and what is output is `Format`. */
  method FormatInteger(value: nat, signed: bool, negative: bool, b: Base, c: Conversion) returns (out: string)
    requires Usable(b) && value < B64
    ensures out == Format(value, signed, negative, b, c)
  {
    var buf := new char[64];
    var cp := GatherDigits(buf, value, b, c.group);
    cp := PadBuffer(buf, cp, b, c);
    var sign := Sign(signed, negative, c);
    var prefix := Prefix(value, b, c);
    var pad := c.width - cp - |prefix| - |sign|;
    var digits := Emit(buf, cp);
    out := Repeat(' ', if c.minus || c.zero then 0 else pad) + sign + prefix +
      Repeat('0', if c.zero then pad else 0) + digits + Repeat(' ', if c.minus then pad else 0);
  }

  /** Zeros up to the precision, as far as the buffer allows, and one more for `#` in base 8. */
  method PadBuffer(buf: array<char>, n: nat, b: Base, c: Conversion) returns (cp: nat)
    requires buf.Length == 64 && n <= 44
    modifies buf
    ensures cp <= 64 && buf[..cp] == Padded(old(buf[..n]), b, c)
  {
    var precision := if c.precision < 0 then 1 else c.precision;
    cp := n;
    while cp < precision && cp < 63
      invariant n <= cp <= 63 && (cp <= precision || cp == n)
      invariant buf[..cp] == old(buf[..n]) + Repeat('0', cp - n)
    {
      buf[cp] := '0';
      RepeatLast('0', cp - n);
      cp := cp + 1;
      assert buf[..cp] == buf[..cp - 1] + ['0'];
    }
    assert buf[..cp] == old(buf[..n]) + Repeat('0', Min(precision, 63) - n);
    if c.pound && b.base == 8 && (cp == 0 || buf[cp - 1] != '0') {
      buf[cp] := '0';
      cp := cp + 1;
    }
  }

  lemma {:induction false} RepeatLast(c: char, n: nat)
    ensures Repeat(c, n + 1) == Repeat(c, n) + [c]
    decreases n
  {
    if n > 0 { RepeatLast(c, n - 1); }
  }

  lemma {:induction false} ReverseLast(s: string)
    requires s != []
    ensures Reverse(s) == [s[|s| - 1]] + Reverse(s[..|s| - 1])
    decreases |s|
  {
    if |s| > 1 {
      ReverseLast(s[1..]);
      assert s[1..][..|s| - 2] == s[..|s| - 1][1..];
    } else {
      assert s[1..] == [] && s[..0] == [];
    }
  }

  // ---------------------------------------------------------------- atoi

  predicate IsSpace(c: char) { c == ' ' || c == '\U{0C}' || c == '\n' || c == '\r' || c == '\t' || c == '\U{0B}' }

  predicate IsDigit(c: char) { '0' <= c <= '9' }

  function Trim(s: string): string { if s != [] && IsSpace(s[0]) then Trim(s[1..]) else s }

  /** The leading digits of `s`, read after `acc`. */
  function Lead(s: string, acc: nat): nat {
    if s != [] && IsDigit(s[0]) then Lead(s[1..], acc * 10 + (s[0] - '0') as nat) else acc
  }

  /** The number a string denotes: spaces, a sign, digits, and anything after them. */
  function Number(s: string): int {
    var t := Trim(s);
    if t != [] && t[0] == '+' then Lead(t[1..], 0)
    else if t != [] && t[0] == '-' then 0 - Lead(t[1..], 0)
    else Lead(t, 0)
  }

  lemma {:induction false} LeadGrows(s: string, acc: nat)
    ensures Lead(s, acc) >= acc
    decreases |s|
  {
    if s != [] && IsDigit(s[0]) { LeadGrows(s[1..], acc * 10 + (s[0] - '0') as nat); }
  }

  /** The digit loop.  It accumulates downwards so that INT_MIN fits; `None` is an `int` overflow. */
  method ParseDigits(s: string, from: nat) returns (r: Option<int>)
    requires from <= |s|
    ensures r == if -(Lead(s[from..], 0) as int) >= INT_MIN then Some(-(Lead(s[from..], 0) as int)) else None
  {
    ghost var magnitude: int := Lead(s[from..], 0);
    var i, value := from, 0;
    while i < |s| && IsDigit(s[i])
      invariant i <= |s| && INT_MIN <= value <= 0 && Lead(s[i..], -value) == magnitude
    {
      assert s[i..][1..] == s[i + 1..];
      var next := value * 10 - (s[i] - '0') as int;
      LeadGrows(s[i + 1..], -next);
      if next < INT_MIN { return None; }
      value := next;
      i := i + 1;
    }
    return Some(value);
  }

  method SkipSpaces(s: string) returns (i: nat)
    ensures i <= |s| && Trim(s) == s[i..]
  {
    i := 0;
    while i < |s| && IsSpace(s[i])
      invariant i <= |s| && Trim(s) == Trim(s[i..])
    {
      assert s[i..][1..] == s[i + 1..];
      i := i + 1;
    }
  }

  /** The result is the number denoted, and is defined (no `int` operation overflows) exactly when that
      number is an `int`. */
  method Atoi(s: string) returns (r: Option<int>)
    ensures r == if INT_MIN <= Number(s) <= INT_MAX then Some(Number(s)) else None
  {
    var i := SkipSpaces(s);
    var negative := i < |s| && s[i] == '-';
    if i < |s| && (s[i] == '+' || s[i] == '-') {
      assert s[i..][1..] == s[i + 1..];
      i := i + 1;
    }
    r := ParseDigits(s, i);
    if r.Some? && !negative {
      r := if r.value == INT_MIN then None else Some(-r.value);
    }
  }

  // ---------------------------------------------------------------- there and back

  /** The value of a buffer of decimal digits, least significant first. */
  function Val(s: string): nat
    requires AllDigits(s)
  {
    if s == [] then 0 else (s[0] - '0') as nat + 10 * Val(s[1..])
  }

  predicate AllDigits(s: string) { forall i :: 0 <= i < |s| ==> IsDigit(s[i]) }

  lemma {:induction false} LeadConcat(x: string, y: string, acc: nat)
    requires AllDigits(x)
    ensures Lead(x + y, acc) == Lead(y, Lead(x, acc))
    decreases |x|
  {
    if x == [] {
      assert x + y == y;
    } else {
      assert (x + y)[1..] == x[1..] + y;
      LeadConcat(x[1..], y, acc * 10 + (x[0] - '0') as nat);
    }
  }

  lemma {:induction false} ReverseDigits(s: string)
    requires AllDigits(s)
    ensures AllDigits(Reverse(s))
    decreases |s|
  {
    if s != [] { ReverseDigits(s[1..]); }
  }

  /** Output backwards, the buffer reads as its value. */
  lemma {:induction false} LeadReverse(s: string)
    requires AllDigits(s)
    ensures Lead(Reverse(s), 0) == Val(s)
    decreases |s|
  {
    if s != [] {
      ReverseDigits(s[1..]);
      LeadReverse(s[1..]);
      LeadConcat(Reverse(s[1..]), [s[0]], 0);
      var acc := Val(s[1..]) * 10 + (s[0] - '0') as nat;
      assert Lead([s[0]], Val(s[1..])) == Lead([], acc) by { assert [s[0]][1..] == []; }
    }
  }

  lemma {:induction false} ValZeros(s: string, n: int)
    requires AllDigits(s)
    ensures AllDigits(s + Repeat('0', n)) && Val(s + Repeat('0', n)) == Val(s)
    decreases |s|, if n < 0 then 0 else n
  {
    if s != [] {
      assert (s + Repeat('0', n))[1..] == s[1..] + Repeat('0', n);
      ValZeros(s[1..], n);
    } else {
      assert s + Repeat('0', n) == Repeat('0', n);
      if n > 0 {
        assert [] + Repeat('0', n - 1) == Repeat('0', n - 1);
        ValZeros([], n - 1);
      }
    }
  }

  lemma {:induction false} ValDigits(v: nat, cnt: nat)
    ensures AllDigits(Digits(v, Decimal(), false, cnt)) && Val(Digits(v, Decimal(), false, cnt)) == v
    decreases v
  {
    if v > 0 {
      var b := Decimal();
      ValDigits(Quot(v, b), cnt + 1);
      var rest := Digits(Quot(v, b), b, false, cnt + 1);
      assert Digits(v, b, false, cnt) == [Digit(v, b)] + rest;
      DecimalDigit(v % 10);
    }
  }

  lemma DecimalDigit(d: nat)
    requires d < 10
    ensures IsDigit("0123456789"[d]) && ("0123456789"[d] - '0') as nat == d
  {
  }

  lemma {:induction false} LeadZeros(n: int, t: string)
    ensures Lead(Repeat('0', n) + t, 0) == Lead(t, 0)
    decreases if n < 0 then 0 else n
  {
    if n <= 0 {
      assert Repeat('0', n) + t == t;
    } else {
      assert (Repeat('0', n) + t)[1..] == Repeat('0', n - 1) + t;
      LeadZeros(n - 1, t);
    }
  }

  lemma {:induction false} TrimSpaces(n: int, t: string)
    ensures Trim(Repeat(' ', n) + t) == Trim(t)
    decreases if n < 0 then 0 else n
  {
    if n <= 0 {
      assert Repeat(' ', n) + t == t;
    } else {
      assert (Repeat(' ', n) + t)[1..] == Repeat(' ', n - 1) + t;
      TrimSpaces(n - 1, t);
    }
  }

  /** What follows the sign: zeros, digits and perhaps trailing spaces. */
  function Body(zeros: int, buf: string, spaces: int): string {
    Repeat('0', zeros) + Reverse(buf) + Repeat(' ', spaces)
  }

  /** It starts with a digit, or is spaces only. */
  lemma BodyStart(zeros: int, buf: string, spaces: int)
    requires buf == [] || IsDigit(buf[|buf| - 1])
    ensures var t := Body(zeros, buf, spaces);
      (t != [] && IsDigit(t[0])) || (zeros <= 0 && buf == [] && t == Repeat(' ', spaces))
  {
    if zeros <= 0 {
      assert Body(zeros, buf, spaces) == Reverse(buf) + Repeat(' ', spaces);
      if buf != [] { ReverseLast(buf); }
    }
  }

  /** With or without a sign, a field denotes what the leading digits of its body do. */
  lemma FieldNumber(pad: int, sign: string, zeros: int, buf: string, spaces: int)
    requires sign in {"", " ", "+", "-"} && (buf == [] || IsDigit(buf[|buf| - 1]))
    ensures var t := Body(zeros, buf, spaces);
      Number(Repeat(' ', pad) + sign + t) == if sign == "-" then 0 - Lead(t, 0) else Lead(t, 0)
  {
    var t := Body(zeros, buf, spaces);
    assert Repeat(' ', pad) + sign + t == Repeat(' ', pad) + (sign + t);
    TrimSpaces(pad, sign + t);
    var u := Repeat(' ', pad) + sign + t;
    if sign == "-" || sign == "+" {
      SignedNumber(u, sign, t);
    } else {
      SpaceSign(sign, t);
      BodyStart(zeros, buf, spaces);
      PlainNumber(u, t, spaces);
    }
  }

  lemma SignedNumber(u: string, sign: string, t: string)
    requires (sign == "-" || sign == "+") && Trim(u) == Trim(sign + t)
    ensures Number(u) == if sign == "-" then 0 - Lead(t, 0) else Lead(t, 0)
  {
    assert (sign + t)[1..] == t;
  }

  lemma PlainNumber(u: string, t: string, spaces: int)
    requires Trim(u) == Trim(t) && ((t != [] && IsDigit(t[0])) || t == Repeat(' ', spaces))
    ensures Number(u) == Lead(t, 0)
  {
    if t == Repeat(' ', spaces) { OnlySpaces(spaces); }
  }

  lemma SpaceSign(sign: string, t: string)
    requires sign == "" || sign == " "
    ensures Trim(sign + t) == Trim(t)
  {
    if sign == " " { assert (sign + t)[1..] == t; } else { assert sign + t == t; }
  }

  lemma OnlySpaces(n: int)
    ensures Trim(Repeat(' ', n)) == [] && Lead(Repeat(' ', n), 0) == 0
  {
    TrimSpaces(n, []);
    assert Repeat(' ', n) + [] == Repeat(' ', n);
  }

  lemma LeadBody(zeros: int, buf: string, spaces: int)
    ensures Lead(Body(zeros, buf, spaces), 0) == Lead(Reverse(buf) + Repeat(' ', spaces), 0)
  {
    assert Body(zeros, buf, spaces) == Repeat('0', zeros) + (Reverse(buf) + Repeat(' ', spaces));
    LeadZeros(zeros, Reverse(buf) + Repeat(' ', spaces));
  }

  lemma LeadWhole(buf: string, spaces: int)
    requires AllDigits(buf)
    ensures Lead(Reverse(buf) + Repeat(' ', spaces), 0) == Val(buf)
  {
    ReverseDigits(buf);
    LeadConcat(Reverse(buf), Repeat(' ', spaces), 0);
    LeadReverse(buf);
  }

  /** The field `%d` produces, with any flags, width and precision. */
  function FormatInt(n: int, c: Conversion): string {
    Format(Magnitude(n), true, n < 0, Decimal(), c)
  }

  /** Its parts, as `Body` and `FieldNumber` see them. */
  lemma FormatParts(n: int, c: Conversion)
    returns (lead: int, sign: string, zeros: int, buf: string, trail: int, k: int)
    ensures FormatInt(n, c) == Repeat(' ', lead) + sign + Body(zeros, buf, trail)
    ensures sign in {"", " ", "+", "-"} && (sign == "-" <==> n < 0)
    ensures buf == Digits(Magnitude(n), Decimal(), c.group, 0) + Repeat('0', k)
  {
    var raw := Digits(Magnitude(n), Decimal(), c.group, 0);
    k := Min(if c.precision < 0 then 1 else c.precision, 63) - |raw|;
    buf := Padded(raw, Decimal(), c);
    sign := Sign(true, n < 0, c);
    var pad := c.width - |buf| - |sign|;
    lead, zeros, trail := if c.minus || c.zero then 0 else pad, if c.zero then pad else 0, if c.minus then pad else 0;
    FormatDecimal(n, c);
    FieldParts(c, pad, sign, buf);
    PaddedDecimal(raw, c);
    SignCases(n < 0, c);
  }

  lemma FormatDecimal(n: int, c: Conversion)
    ensures FormatInt(n, c) ==
      Field(Padded(Digits(Magnitude(n), Decimal(), c.group, 0), Decimal(), c), Sign(true, n < 0, c), "", c)
  {
    NoPrefix(Magnitude(n), c);
  }

  lemma PaddedDecimal(buf: string, c: Conversion)
    ensures Padded(buf, Decimal(), c) == buf + Repeat('0', Min(if c.precision < 0 then 1 else c.precision, 63) - |buf|)
  {
  }

  lemma SignCases(negative: bool, c: Conversion)
    ensures Sign(true, negative, c) in {"", " ", "+", "-"} && (Sign(true, negative, c) == "-" <==> negative)
  {
  }

  lemma NoPrefix(v: nat, c: Conversion)
    ensures Prefix(v, Decimal(), c) == ""
  {
  }

  lemma FieldParts(c: Conversion, pad: int, sign: string, buf: string)
    requires pad == c.width - |buf| - |sign|
    ensures Field(buf, sign, "", c) ==
      Repeat(' ', if c.minus || c.zero then 0 else pad) + sign +
      Body(if c.zero then pad else 0, buf, if c.minus then pad else 0)
  {
    Regroup(Repeat(' ', if c.minus || c.zero then 0 else pad), sign,
            Repeat('0', if c.zero then pad else 0), Reverse(buf), Repeat(' ', if c.minus then pad else 0));
  }

  lemma Regroup(a: string, s: string, z: string, r: string, t: string)
    ensures a + s + "" + z + r + t == a + s + (z + r + t)
  {
  }

  /** Printing and parsing undo each other, for every int and every choice of flags, width and precision
      without grouping. */
  lemma RoundTrip(n: int, c: Conversion)
    requires !c.group
    ensures Number(FormatInt(n, c)) == n
  {
    var lead, sign, zeros, buf, trail, k := FormatParts(n, c);
    ValDigits(Magnitude(n), 0);
    ValZeros(Digits(Magnitude(n), Decimal(), false, 0), k);
    FieldNumber(lead, sign, zeros, buf, trail);
    LeadBody(zeros, buf, trail);
    LeadWhole(buf, trail);
  }

  // ---------------------------------------------------------------- grouping

  lemma {:induction false} ReverseConcat(x: string, y: string)
    ensures Reverse(x + y) == Reverse(y) + Reverse(x)
    decreases |x|
  {
    if x == [] {
      assert x + y == y;
    } else {
      assert (x + y)[1..] == x[1..] + y;
      ReverseConcat(x[1..], y);
    }
  }

  lemma {:induction false} ReverseRepeat(c: char, n: int)
    ensures Reverse(Repeat(c, n)) == Repeat(c, n)
    decreases if n < 0 then 0 else n
  {
    if n > 0 {
      ReverseRepeat(c, n - 1);
      assert Repeat(c, n)[1..] == Repeat(c, n - 1);
      RepeatLast(c, n - 1);
    }
  }

  function Grouped(v: nat, cnt: nat): string { Digits(v, Decimal(), true, cnt) }

  lemma GroupedStep(v: nat, cnt: nat)
    requires v > 0
    ensures Grouped(v, cnt) == Comma(Decimal(), true, cnt) + ["0123456789"[v % 10]] + Grouped(v / 10, cnt + 1)
    ensures IsDigit("0123456789"[v % 10]) && ("0123456789"[v % 10] - '0') as nat == v % 10
  {
    DecimalDigit(v % 10);
  }

  lemma {:induction false} GroupedLast(v: nat, cnt: nat)
    requires v > 0
    ensures Grouped(v, cnt) != [] && IsDigit(Grouped(v, cnt)[|Grouped(v, cnt)| - 1])
    decreases v
  {
    GroupedStep(v, cnt);
    if v / 10 > 0 { GroupedLast(v / 10, cnt + 1); }
  }

  lemma {:induction false} GroupedVal(v: nat, cnt: nat)
    requires AllDigits(Grouped(v, cnt))
    ensures Val(Grouped(v, cnt)) == v
    decreases v
  {
    if v > 0 {
      GroupedStep(v, cnt);
      var g, rest := Grouped(v, cnt), Grouped(v / 10, cnt + 1);
      assert IsDigit(g[0]);
      assert g == ["0123456789"[v % 10]] + rest;
      assert forall i :: 0 <= i < |rest| ==> rest[i] == g[i + 1];
      GroupedVal(v / 10, cnt + 1);
    }
  }

  /** Reading stops at the first comma, so it never reads more than the number, and less when a digit follows. */
  lemma {:induction false} GroupedLead(v: nat, cnt: nat, t: string)
    requires !AllDigits(Grouped(v, cnt))
    ensures Lead(Reverse(Grouped(v, cnt)) + t, 0) <= v
    ensures cnt == 0 ==> Lead(Reverse(Grouped(v, cnt)) + t, 0) < v
    decreases v
  {
    assert v > 0;
    GroupedStep(v, cnt);
    var comma, d, rest := Comma(Decimal(), true, cnt), ["0123456789"[v % 10]], Grouped(v / 10, cnt + 1);
    ReverseGrouped(comma, d, rest, t);
    if AllDigits(rest) {
      assert comma == "" ==> Grouped(v, cnt) == d + rest;
      GroupedVal(v / 10, cnt + 1);
      ReadToComma(rest, v % 10, t);
    } else {
      GroupedLead(v / 10, cnt + 1, d + comma + t);
    }
  }

  lemma ReverseGrouped(comma: string, d: string, rest: string, t: string)
    requires |comma| <= 1 && |d| == 1
    ensures Reverse(comma + d + rest) + t == Reverse(rest) + (d + comma + t)
  {
    ReverseConcat(comma + d, rest);
    ReverseConcat(comma, d);
    ReverseShort(comma);
    ReverseShort(d);
    Associates(Reverse(rest), d, comma, t);
  }

  lemma ReverseShort(s: string)
    requires |s| <= 1
    ensures Reverse(s) == s
  {
    if s != [] { assert s[1..] == []; }
  }

  lemma Associates(a: string, b: string, c: string, t: string)
    ensures a + (b + c) + t == a + (b + c + t)
  {
  }

  lemma ReadToComma(rest: string, d: nat, t: string)
    requires AllDigits(rest) && d < 10
    ensures Lead(Reverse(rest) + (["0123456789"[d]] + "," + t), 0) == Val(rest) * 10 + d
  {
    var tail := ["0123456789"[d]] + "," + t;
    ReverseDigits(rest);
    LeadReverse(rest);
    LeadConcat(Reverse(rest), tail, 0);
    DecimalDigit(d);
    assert tail[1..] == "," + t;
    assert Lead("," + t, Val(rest) * 10 + d) == Val(rest) * 10 + d;
  }

  /** A number has a comma exactly from 1000 on. */
  lemma CommaIff(v: nat)
    ensures AllDigits(Grouped(v, 0)) <==> v < 1000
  {
    ThreeDigits(v);
    if v >= 1000 {
      GroupedStep(v / 1000, 3);
      assert Grouped(v, 0)[3] == ',';
    }
  }

  /** The first three digits are followed by the rest, if there is any. */
  lemma ThreeDigits(v: nat)
    ensures v < 1000 ==> AllDigits(Grouped(v, 0))
    ensures v >= 1000 ==> |Grouped(v, 0)| >= 3 && Grouped(v, 0)[3..] == Grouped(v / 1000, 3)
  {
    if v > 0 {
      GroupedStep(v, 0);
      assert Grouped(v, 0) == ["0123456789"[v % 10]] + Grouped(v / 10, 1);
      TwoDigits(v / 10);
    }
  }

  lemma TwoDigits(w: nat)
    ensures w < 100 ==> AllDigits(Grouped(w, 1))
    ensures w >= 100 ==> |Grouped(w, 1)| >= 2 && Grouped(w, 1)[2..] == Grouped(w / 100, 3)
  {
    if w > 0 {
      GroupedStep(w, 1);
      assert Grouped(w, 1) == ["0123456789"[w % 10]] + Grouped(w / 10, 2);
      if w / 10 > 0 {
        GroupedStep(w / 10, 2);
        assert Grouped(w / 10, 2) == ["0123456789"[w / 10 % 10]] + Grouped(w / 100, 3);
      }
    }
  }

  /** With grouping the round trip still holds, if and only if there is nothing to group. */
  lemma RoundTripIff(n: int, c: Conversion)
    ensures Number(FormatInt(n, c)) == n <==> !c.group || Magnitude(n) < 1000
  {
    if !c.group {
      RoundTrip(n, c);
    } else {
      var v := Magnitude(n);
      var lead, sign, zeros, buf, trail, k := FormatParts(n, c);
      CommaIff(v);
      LastOfPadded(v, k);
      FieldNumber(lead, sign, zeros, buf, trail);
      LeadBody(zeros, buf, trail);
      if v < 1000 {
        GroupedVal(v, 0);
        ValZeros(Grouped(v, 0), k);
        LeadWhole(buf, trail);
      } else {
        PaddedLead(Grouped(v, 0), k, Repeat(' ', trail));
        GroupedLead(v, 0, Repeat(' ', trail));
      }
    }
  }

  lemma LastOfPadded(v: nat, k: int)
    ensures var buf := Grouped(v, 0) + Repeat('0', k); buf == [] || IsDigit(buf[|buf| - 1])
  {
    if v > 0 { GroupedLast(v, 0); }
  }

  lemma PaddedLead(raw: string, k: int, t: string)
    ensures Lead(Reverse(raw + Repeat('0', k)) + t, 0) == Lead(Reverse(raw) + t, 0)
  {
    ReverseConcat(raw, Repeat('0', k));
    ReverseRepeat('0', k);
    assert Reverse(raw + Repeat('0', k)) + t == Repeat('0', k) + (Reverse(raw) + t);
    LeadZeros(k, Reverse(raw) + t);
  }

  // ---------------------------------------------------------------- vsnprintf

  /** The size less one, as an `int`. */
  function MaxLength(size: nat): int { if size > 0 then AsSigned(size - 1, 0x8000_0000) else 0 }

  /** How much of an output of `n` characters is stored. */
  function Stored(n: nat, size: nat): (k: nat) { if MaxLength(size) < 0 then 0 else Min(n, MaxLength(size)) }

  /** What is stored is the longest prefix that leaves room for the terminator, exactly when the size less one survives
      the conversion to `int` or the output is no longer than what it is converted to. */
  lemma StoredIsLongestPrefix(n: nat, size: nat)
    requires size > 0
    ensures Stored(n, size) == Min(n, size - 1) <==>
      MaxLength(size) == size - 1 || n <= (if MaxLength(size) < 0 then 0 else MaxLength(size))
    ensures size <= 0x8000_0000 ==> Stored(n, size) == Min(n, size - 1)
  {
    StoredFits(n, size);
  }

  /** A size above 2^31 cuts short some output that would fit and whose length is an `int`, unless the size is 2^31
      modulo 2^32: only then is the limit still the greatest `int`. */
  lemma LargeSizesCutIff(size: nat)
    requires size > 0x8000_0000
    ensures (exists n: nat :: n <= INT_MAX && n < size && Stored(n, size) < n) <==> MaxLength(size) != INT_MAX
    ensures MaxLength(size) == INT_MAX <==> size % 0x1_0000_0000 == 0x8000_0000
  {
    if MaxLength(size) != INT_MAX {
      assert Stored(INT_MAX, size) < INT_MAX;
    }
  }

  /** `vsnprintf` on the characters that the conversions produce. */
  method Vsnprintf(out: string, buffer: array<char>, size: nat) returns (length: nat)
    requires size <= buffer.Length && |out| <= INT_MAX && size <= 0x1_0000_0000_0000_0000
    modifies buffer
    ensures length == |out|
    ensures size > 0 ==> Stored(|out|, size) < size && buffer[..Stored(|out|, size)] == out[..Stored(|out|, size)] &&
                         buffer[Stored(|out|, size)] == '\0'
    ensures forall i :: Stored(|out|, size) < i < buffer.Length || (size == 0 && 0 <= i < buffer.Length) ==>
      buffer[i] == old(buffer[i])
  {
    StoredFits(|out|, size);
    var max := MaxLength(size);
    var p := 0;
    length := 0;
    while length < |out|
      invariant length <= |out| && p == Stored(length, size) && (size > 0 ==> p < size) && (size == 0 ==> p == 0)
      invariant p <= buffer.Length && p <= |out| && buffer[..p] == out[..p]
      invariant forall i :: p <= i < buffer.Length ==> buffer[i] == old(buffer[i])
    {
      StoredFits(length, size);
      StoredFits(length + 1, size);
      if length < max {
        buffer[p] := out[length];
        p := p + 1;
      }
      length := length + 1;
    }
    if size > 0 {
      buffer[p] := '\0';
    }
  }

  lemma StoredFits(n: nat, size: nat)
    ensures Stored(n, size) <= n && (size > 0 ==> Stored(n, size) < size) && (size == 0 ==> Stored(n, size) == 0)
    ensures MaxLength(size) <= if size > 0 then size - 1 else 0
  {
  }

  // ---------------------------------------------------------------- there and back, through memory

  lemma {:induction false} LeadStops(s: string, rest: string, acc: nat)
    ensures Lead(s + "\0" + rest, acc) == Lead(s, acc)
    decreases |s|
  {
    var t := s + "\0" + rest;
    if s != [] && IsDigit(s[0]) {
      assert t[1..] == s[1..] + "\0" + rest;
      LeadStops(s[1..], rest, acc * 10 + (s[0] - '0') as nat);
    } else {
      assert t[0] == if s == [] then '\0' else s[0];
    }
  }

  lemma {:induction false} TrimStops(s: string, rest: string)
    ensures Trim(s + "\0" + rest) == Trim(s) + "\0" + rest
    decreases |s|
  {
    var t := s + "\0" + rest;
    if s != [] && IsSpace(s[0]) {
      assert t[1..] == s[1..] + "\0" + rest;
      TrimStops(s[1..], rest);
    } else {
      assert t[0] == if s == [] then '\0' else s[0];
    }
  }

  /** A terminator ends the number: what lies behind it in memory does not matter. */
  lemma NumberStops(s: string, rest: string)
    ensures Number(s + "\0" + rest) == Number(s)
  {
    TrimStops(s, rest);
    var t := Trim(s);
    var u := t + "\0" + rest;
    assert u[0] == if t == [] then '\0' else t[0];
    LeadStops(t, rest, 0);
    if t != [] {
      assert u[1..] == t[1..] + "\0" + rest;
      LeadStops(t[1..], rest, 0);
    }
  }

  lemma Terminated(memory: string, s: string)
    requires |s| < |memory| && memory[..|s|] == s && memory[|s|] == '\0'
    ensures Number(memory) == Number(s)
  {
    assert memory == s + "\0" + memory[|s| + 1..];
    NumberStops(s, memory[|s| + 1..]);
  }

  /** Printing an int into memory with room for it and reading that memory back gives the int, exactly when nothing was
      grouped.  What the memory held before does not matter. */
  method PrintThenParse(n: int, c: Conversion, size: nat) returns (r: Option<int>)
    requires INT_MIN <= n <= INT_MAX && |FormatInt(n, c)| <= MaxLength(size) && 0 < size < B64
    ensures r == Some(n) <==> !c.group || Magnitude(n) < 1000
  {
    BasesUsable();
    var text := FormatInteger(Magnitude(n), true, n < 0, Decimal(), c);
    var buffer := new char[size];
    var length := Vsnprintf(text, buffer, size);
    Terminated(buffer[..], text);
    RoundTripIff(n, c);
    r := Atoi(buffer[..]);
  }
}
