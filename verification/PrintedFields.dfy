/**
 What an integer field of pintos-kaist/lib/stdio.c looks like, in any base: its sign, its prefix, its digits and
 their value, and how it is padded.
 */
module PrintedFields {
  import opened Wrappers
  import opened Arithmetic
  import opened Printing

  /** The value of a digit character. */
  function DigitValue(c: char): nat {
    if '0' <= c <= '9' then (c - '0') as nat
    else if 'a' <= c <= 'f' then (c - 'a') as nat + 10
    else if 'A' <= c <= 'F' then (c - 'A') as nat + 10
    else 16
  }

  /** The number that a string of digits denotes, commas apart. */
  function Reads(s: string, base: nat): nat {
    if s == [] then 0
    else
      var n := |s| - 1;
      if s[n] == ',' then Reads(s[..n], base) else Reads(s[..n], base) * base + DigitValue(s[n])
  }

  /** Digit `d` of the base is written as it should be. */
  predicate ProperAt(b: Base, d: nat)
    requires d < |b.digits|
  {
    DigitValue(b.digits[d]) == d && b.digits[d] != ','
  }

  predicate Proper(b: Base) { Usable(b) && forall d: nat {:trigger ProperAt(b, d)} :: d < |b.digits| ==> ProperAt(b, d) }

  /** The four bases of printf. */
  lemma BasesAre()
    ensures Proper(Decimal()) && Decimal().base == 10 && Decimal().x.None? && Decimal().group == 3
    ensures Proper(Octal()) && Octal().base == 8 && Octal().x.None? && Octal().group == 3
    ensures Proper(Hex()) && Hex().base == 16 && Hex().x == Some('x') && Hex().group == 4
    ensures Proper(HexUpper()) && HexUpper().base == 16 && HexUpper().x == Some('X') && HexUpper().group == 4
    ensures forall c :: c in Hex().digits ==> !('A' <= c <= 'F')
    ensures forall c :: c in HexUpper().digits ==> !('a' <= c <= 'f')
  {
    BasesUsable();
    DecimalProper();
    OctalProper();
    HexProper();
    HexUpperProper();
  }

  lemma DecimalProper()
    ensures Proper(Decimal())
  {
    forall d: nat | d < 10 ensures ProperAt(Decimal(), d) { DecimalDigit(d); }
  }

  lemma OctalProper()
    ensures Proper(Octal())
  {
    forall d: nat | d < 8 ensures ProperAt(Octal(), d) { assert "01234567"[d] == '0' + d as char; }
  }

  lemma HexProper()
    ensures Proper(Hex())
  {
    forall d: nat | d < 16 ensures ProperAt(Hex(), d) {
      assert "0123456789abcdef"[d] == if d < 10 then '0' + d as char else 'a' + (d - 10) as char;
    }
  }

  lemma HexUpperProper()
    ensures Proper(HexUpper())
  {
    forall d: nat | d < 16 ensures ProperAt(HexUpper(), d) {
      assert "0123456789ABCDEF"[d] == if d < 10 then '0' + d as char else 'A' + (d - 10) as char;
    }
  }

  // ---------------------------------------------------------------- the digits

  /** The buffer, which is output backwards, reads as the value. */
  lemma {:induction false} DigitsRead(v: nat, b: Base, group: bool, cnt: nat)
    requires Proper(b)
    ensures Reads(Reverse(Digits(v, b, group, cnt)), b.base) == v
    ensures forall c :: c in Digits(v, b, group, cnt) ==> c in b.digits || (group && c == ',')
    decreases v
  {
    if v > 0 {
      var d, comma, rest := v % b.base, Comma(b, group, cnt), Digits(Quot(v, b), b, group, cnt + 1);
      DigitsRead(Quot(v, b), b, group, cnt + 1);
      DivIsQuot(v, b.base);
      assert ProperAt(b, d);
      ReadFront(Digit(v, b), rest, b.base);
      ReadComma(comma, [Digit(v, b)] + rest, b.base);
      assert Digits(v, b, group, cnt) == comma + ([Digit(v, b)] + rest);
    }
  }

  lemma ReadComma(comma: string, s: string, base: nat)
    requires comma == "" || comma == ","
    ensures Reads(Reverse(comma + s), base) == Reads(Reverse(s), base)
  {
    if comma == "" { assert comma + s == s; } else { ReadFront(',', s, base); }
  }

  lemma ReadFront(c: char, rest: string, base: nat)
    ensures Reads(Reverse([c] + rest), base) ==
      if c == ',' then Reads(Reverse(rest), base) else Reads(Reverse(rest), base) * base + DigitValue(c)
  {
    assert ([c] + rest)[1..] == rest;
    var r := Reverse([c] + rest);
    assert r[..|r| - 1] == Reverse(rest) && r[|r| - 1] == c;
  }

  /** Zeros in front do not change the number. */
  lemma {:induction false} ZerosRead(n: int, s: string, base: nat)
    ensures Reads(Repeat('0', n) + s, base) == Reads(s, base)
    decreases |s|, if n < 0 then 0 else n
  {
    var t := Repeat('0', n) + s;
    if s != [] {
      ZerosRead(n, s[..|s| - 1], base);
      assert t[..|t| - 1] == Repeat('0', n) + s[..|s| - 1];
    } else if n > 0 {
      RepeatLast('0', n - 1);
      assert t == Repeat('0', n) == Repeat('0', n - 1) + ['0'];
      assert t[..|t| - 1] == Repeat('0', n - 1) + [];
      ZerosRead(n - 1, [], base);
    } else {
      assert t == [];
    }
  }

  /** How many digits stand right of a place in the buffer since the last comma. */
  function Since(cnt: nat, g: nat): nat
    requires g > 0
  {
    if cnt == 0 then 0 else (cnt - 1) % g + 1
  }

  /** Commas stand after every `group` digits from the right, and nowhere else. */
  lemma {:induction false} CommasAt(v: nat, b: Base, group: bool, cnt: nat, j: nat)
    requires Proper(b) && j < |Digits(v, b, group, cnt)|
    ensures Digits(v, b, group, cnt)[j] == ',' <==> group && (j + Since(cnt, b.group)) % (b.group + 1) == b.group
    decreases v
  {
    var g, o := b.group, Since(cnt, b.group);
    var s, rest := Digits(v, b, group, cnt), Digits(Quot(v, b), b, group, cnt + 1);
    assert ProperAt(b, v % b.base) by { DivIsQuot(v, b.base); }
    SinceStep(cnt, g);
    var lead := if Comma(b, group, cnt) != "" then 2 else 1;
    assert s == Comma(b, group, cnt) + [Digit(v, b)] + rest;
    if j >= lead {
      CommasAt(Quot(v, b), b, group, cnt + 1, j - lead);
      assert s[j] == rest[j - lead];
      if o == g { Turn(j - 1, g + 1); }
    } else {
      Small(j, o, g);
    }
  }

  lemma Turn(x: nat, m: nat)
    requires m > 0
    ensures (x + m) % m == x % m
  {
    DivIsQuot(x, m);
    DivUnique(x + m, m, x / m + 1);
  }

  /** At the head of a stretch: the comma if the group is full, and then a digit. */
  lemma Small(j: nat, o: nat, g: nat)
    requires g > 0 && o <= g && j <= (if o == g then 1 else 0)
    ensures (j + o) % (g + 1) == g <==> o == g && j == 0
  {
    if j == 1 { DivUnique(j + o, g + 1, 1); } else { DivUnique(j + o, g + 1, 0); }
  }

  lemma SinceStep(cnt: nat, g: nat)
    requires g > 0
    ensures Since(cnt, g) <= g && (cnt > 0 && cnt % g == 0 <==> Since(cnt, g) == g)
    ensures Since(cnt + 1, g) == if Since(cnt, g) == g then 1 else Since(cnt, g) + 1
  {
    if cnt > 0 {
      DivIsQuot(cnt - 1, g);
      var q, r := (cnt - 1) / g, (cnt - 1) % g;
      if r + 1 == g { DivUnique(cnt, g, q + 1); } else { DivUnique(cnt, g, q); }
    }
  }

  // ---------------------------------------------------------------- the field

  /** A field, part by part: blanks, sign, prefix, zeros, digits, blanks.  The digits read as the value whatever the base,
      the precision and the grouping; the sign and the prefix are there just when they should be; and the field is as
      wide as asked for, or as its parts, padded on the side or with the zeros that the flags say. */
  lemma FieldIs(v: nat, signed: bool, negative: bool, b: Base, c: Conversion)
    returns (lead: nat, sign: string, prefix: string, zeros: nat, body: string, trail: nat)
    requires Proper(b)
    ensures Format(v, signed, negative, b, c) ==
      Repeat(' ', lead) + sign + prefix + Repeat('0', zeros) + body + Repeat(' ', trail)
    ensures sign == if signed && negative then "-" else if signed && c.plus then "+" else if signed && c.space then " " else ""
    ensures prefix == if c.pound && v > 0 && b.x.Some? then ['0', b.x.value] else ""
    ensures Reads(body, b.base) == v && forall d :: d in body ==> d in b.digits || d == '0' || (c.group && d == ',')
    ensures |body| >= Min(if c.precision < 0 then 1 else c.precision, 63)
    ensures v == 0 && c.precision == 0 && !(c.pound && b.base == 8) ==> body == ""
    ensures c.pound && b.base == 8 ==> body != "" && body[0] == '0'
    ensures body != "" && body[0] == '0' && |body| > Min(if c.precision < 0 then 1 else c.precision, 63) ==>
      c.pound && b.base == 8 && (|body| == 1 || body[1] != '0')
    ensures var room := c.width - |sign| - |prefix| - |body|; var pad := if room < 0 then 0 else room;
      lead == (if c.minus || c.zero then 0 else pad) && zeros == (if c.zero then pad else 0) && trail == (if c.minus then pad else 0)
  {
    var raw := Digits(v, b, c.group, 0);
    DigitsRead(v, b, c.group, 0);
    BodyReads(raw, b, c);
    if v > 0 { NoLeadingZero(v, b, c.group); }
    FewZeros(raw, b, c);
    sign, prefix, body := Sign(signed, negative, c), Prefix(v, b, c), Reverse(Padded(raw, b, c));
    lead, zeros, trail := Pads(Padded(raw, b, c), sign, prefix, c);
  }

  lemma Pads(buf: string, sign: string, prefix: string, c: Conversion) returns (lead: nat, zeros: nat, trail: nat)
    ensures Field(buf, sign, prefix, c) ==
      Repeat(' ', lead) + sign + prefix + Repeat('0', zeros) + Reverse(buf) + Repeat(' ', trail)
    ensures var room := c.width - |sign| - |prefix| - |buf|; var pad := if room < 0 then 0 else room;
      lead == (if c.minus || c.zero then 0 else pad) && zeros == (if c.zero then pad else 0) && trail == (if c.minus then pad else 0)
  {
    var room := c.width - |sign| - |prefix| - |buf|;
    var pad := if room < 0 then 0 else room;
    lead, zeros, trail := if c.minus || c.zero then 0 else pad, if c.zero then pad else 0, if c.minus then pad else 0;
    NegativeRepeats(room);
  }

  lemma NegativeRepeats(room: int)
    ensures forall c: char :: room < 0 ==> Repeat(c, room) == Repeat(c, 0)
  {
  }

  /** Padding the buffer keeps what it reads as. */
  lemma BodyReads(raw: string, b: Base, c: Conversion)
    ensures var body := Reverse(Padded(raw, b, c));
      && Reads(body, b.base) == Reads(Reverse(raw), b.base)
      && |body| >= Min(if c.precision < 0 then 1 else c.precision, 63)
      && (c.pound && b.base == 8 ==> body != "" && body[0] == '0')
      && forall d :: d in body ==> d in raw || d == '0'
    ensures raw == "" && c.precision == 0 && !(c.pound && b.base == 8) ==> Reverse(Padded(raw, b, c)) == ""
  {
    var n := Min(if c.precision < 0 then 1 else c.precision, 63) - |raw|;
    var z := raw + Repeat('0', n);
    ZerosBehind(raw, n, b.base);
    var buf := Padded(raw, b, c);
    if buf != z {
      assert buf == z + Repeat('0', 1);
      ZerosBehind(z, 1, b.base);
    }
    if buf != [] { ReverseLast(buf); }
    forall d | d in Reverse(buf) ensures d in raw || d == '0' { ReverseHas(buf, d); }
  }

  /** No more zeros than asked for, but for the one that marks an octal number. */
  lemma FewZeros(raw: string, b: Base, c: Conversion)
    requires raw != "" ==> raw[|raw| - 1] != '0'
    ensures var body, m := Reverse(Padded(raw, b, c)), Min(if c.precision < 0 then 1 else c.precision, 63);
      body != "" && body[0] == '0' && |body| > m ==> c.pound && b.base == 8 && (|body| == 1 || body[1] != '0')
  {
    var buf := Padded(raw, b, c);
    if buf != [] {
      ReverseLast(buf);
      var front := buf[..|buf| - 1];
      if front != [] { ReverseLast(front); }
    }
  }

  lemma ZerosBehind(s: string, n: int, base: nat)
    ensures Reads(Reverse(s + Repeat('0', n)), base) == Reads(Reverse(s), base)
  {
    ReverseConcat(s, Repeat('0', n));
    ReverseRepeat('0', n);
    ZerosRead(n, Reverse(s), base);
  }

  lemma {:induction false} ReverseHas(s: string, c: char)
    ensures c in Reverse(s) <==> c in s
    decreases |s|
  {
    if s != [] {
      ReverseHas(s[1..], c);
      assert s == [s[0]] + s[1..];
    }
  }

  /** Without grouping or precision the digits are as few as possible: they do not begin with a zero. */
  lemma NoLeadingZero(v: nat, b: Base, group: bool)
    requires Proper(b) && v > 0
    ensures var s := Digits(v, b, group, 0); s != [] && s[|s| - 1] != '0' && s[|s| - 1] != ','
  {
    LastDigit(v, b, group, 0);
  }

  lemma {:induction false} LastDigit(v: nat, b: Base, group: bool, cnt: nat)
    requires Proper(b) && v > 0
    ensures var s := Digits(v, b, group, cnt); s != [] && s[|s| - 1] != '0' && s[|s| - 1] != ','
    decreases v
  {
    var rest := Digits(Quot(v, b), b, group, cnt + 1);
    DivIsQuot(v, b.base);
    assert ProperAt(b, v % b.base);
    if Quot(v, b) > 0 {
      LastDigit(Quot(v, b), b, group, cnt + 1);
    } else {
      assert v % b.base == v;
    }
  }

  // ---------------------------------------------------------------- atoi

  predicate Blank(c: char) { c in {' ', '\t', '\n', '\r', '\U{0B}', '\U{0C}'} }

  predicate Ends(rest: string) { rest == "" || !('0' <= rest[0] <= '9') }

  /** What `Lead` reads, up to the first character that is no digit, is the number in base ten. */
  lemma {:induction false} LeadReads(digits: string, rest: string)
    requires (forall i :: 0 <= i < |digits| ==> '0' <= digits[i] <= '9') && Ends(rest)
    ensures Lead(digits + rest, 0) == Reads(digits, 10)
    decreases |digits|
  {
    if digits == "" {
      assert digits + rest == rest;
    } else {
      var n := |digits| - 1;
      var d := digits[n];
      LeadReads(digits[..n], "");
      assert digits[..n] + "" == digits[..n];
      assert digits == digits[..n] + [d];
      assert digits + rest == digits[..n] + ([d] + rest);
      LeadConcat(digits[..n], [d] + rest, 0);
      LeadConcat(digits[..n], "", 0);
      assert ([d] + rest)[1..] == rest;
    }
  }

  lemma {:induction false} TrimBlanks(blanks: string, t: string)
    requires forall i :: 0 <= i < |blanks| ==> Blank(blanks[i])
    ensures Trim(blanks + t) == Trim(t)
    decreases |blanks|
  {
    if blanks == "" {
      assert blanks + t == t;
    } else {
      assert (blanks + t)[1..] == blanks[1..] + t;
      TrimBlanks(blanks[1..], t);
    }
  }

  /** The number of a string, as atoi is to read it: any of the six blanks, a sign or none, digits in base ten, and whatever
      follows. */
  lemma NumberIs(blanks: string, sign: string, digits: string, rest: string)
    requires forall i :: 0 <= i < |blanks| ==> Blank(blanks[i])
    requires sign in {"", "+", "-"} && (forall i :: 0 <= i < |digits| ==> '0' <= digits[i] <= '9') && Ends(rest)
    requires sign == "" && digits == "" && rest != "" ==> !Blank(rest[0]) && rest[0] != '+' && rest[0] != '-'
    ensures Number(blanks + sign + digits + rest) == if sign == "-" then 0 - Reads(digits, 10) else Reads(digits, 10)
  {
    var t := digits + rest;
    var s := blanks + (sign + t);
    Regrouped(blanks, sign, digits, rest);
    TrimBlanks(blanks, sign + t);
    LeadReads(digits, rest);
    if sign == "" { Unsigned(s, digits, rest); } else { Signed(s, sign, t); }
  }

  lemma Regrouped(a: string, b: string, c: string, d: string)
    ensures a + b + c + d == a + (b + (c + d))
  {
  }

  lemma Unsigned(s: string, digits: string, rest: string)
    requires Trim(s) == Trim("" + (digits + rest)) && forall i :: 0 <= i < |digits| ==> '0' <= digits[i] <= '9'
    requires digits == "" && rest != "" ==> !Blank(rest[0]) && rest[0] != '+' && rest[0] != '-'
    ensures Number(s) == Lead(digits + rest, 0)
  {
    var t := digits + rest;
    assert "" + t == t;
    assert t != "" ==> t[0] == if digits != "" then digits[0] else rest[0];
  }

  lemma Signed(s: string, sign: string, t: string)
    requires (sign == "+" || sign == "-") && Trim(s) == Trim(sign + t)
    ensures Number(s) == if sign == "-" then 0 - Lead(t, 0) else Lead(t, 0)
  {
    assert (sign + t)[1..] == t && (sign + t)[0] == sign[0];
  }
}
